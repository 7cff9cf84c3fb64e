/** The depth-first order of a definition graph: it exists exactly when nothing
    reachable from the root instantiates itself, and then it lists exactly the
    reachable definitions, children first. */
module HierarchyOrder {
  import opened Lists
  import opened Hierarchy

  /** Every link leads to a known definition. */
  predicate Linked(defs: Definitions) {
    forall d, k :: 0 <= d < |defs| && 0 <= k < |defs[d]| && defs[d][k].binding.Design? ==>
      defs[d][k].binding.definition < |defs|
  }

  predicate Instantiates(defs: Definitions, d: nat, c: nat) {
    d < |defs| && exists k :: 0 <= k < |defs[d]| && defs[d][k].binding == Design(c)
  }

  predicate Walk(defs: Definitions, walk: seq<nat>) {
    walk != [] && forall i :: 0 <= i < |walk| - 1 ==> Instantiates(defs, walk[i], walk[i + 1])
  }

  ghost predicate Reachable(defs: Definitions, root: nat, d: nat) {
    exists walk :: Walk(defs, walk) && walk[0] == root && walk[|walk| - 1] == d
  }

  /** A closed walk that the root reaches. */
  ghost predicate Recursion(defs: Definitions, root: nat, cycle: seq<nat>) {
    Walk(defs, cycle) && |cycle| >= 2 && cycle[0] == cycle[|cycle| - 1] && Reachable(defs, root, cycle[0])
  }

  ghost predicate ContainsItself(defs: Definitions, root: nat) {
    exists cycle :: Recursion(defs, root, cycle)
  }

  ghost predicate PostorderOf(defs: Definitions, root: nat, order: seq<nat>) {
    && ChildrenFirst(defs, order) && Distinct(order)
    && forall d: nat {:trigger d in order} {:trigger Reachable(defs, root, d)} :: d in order <==>
        Reachable(defs, root, d)
  }

  // ----- orders and cycles exclude each other -----

  lemma {:induction false} WalkStays(defs: Definitions, order: seq<nat>, walk: seq<nat>)
    requires ChildrenFirst(defs, order) && Walk(defs, walk) && walk[0] in order
    ensures walk[|walk| - 1] in order
    ensures |walk| > 1 ==> Rank(order, walk[|walk| - 1]) < Rank(order, walk[0])
    decreases |walk|
  {
    if |walk| > 1 {
      assert Instantiates(defs, walk[0], walk[1]);
      var k :| 0 <= k < |defs[walk[0]]| && defs[walk[0]][k].binding == Design(walk[1]);
      ChildRank(defs, order, walk[0], k);
      var rest := walk[1..];
      forall i | 0 <= i < |rest| - 1 ensures Instantiates(defs, rest[i], rest[i + 1]) {
        assert Instantiates(defs, walk[i + 1], walk[i + 1 + 1]);
      }
      WalkStays(defs, order, rest);
    }
  }

  /** A postorder exists only where no definition reachable from the root contains itself. */
  lemma OrderedIsAcyclic(defs: Definitions, root: nat, order: seq<nat>)
    requires PostorderOf(defs, root, order)
    ensures !ContainsItself(defs, root)
  {
    forall cycle ensures !Recursion(defs, root, cycle) {
      if Recursion(defs, root, cycle) { WalkStays(defs, order, cycle); }
    }
  }

  lemma WalkExtends(defs: Definitions, walk: seq<nat>, d: nat)
    requires Walk(defs, walk) && Instantiates(defs, walk[|walk| - 1], d)
    ensures Walk(defs, walk + [d])
  {
    var longer := walk + [d];
    forall i | 0 <= i < |longer| - 1 ensures Instantiates(defs, longer[i], longer[i + 1]) {
      if i < |walk| - 1 { assert Instantiates(defs, walk[i], walk[i + 1]); }
    }
  }

  lemma WalkSuffix(defs: Definitions, walk: seq<nat>, i: nat)
    requires Walk(defs, walk) && i < |walk|
    ensures Walk(defs, walk[i..]) && Walk(defs, walk[..i + 1])
  {
    var tail := walk[i..];
    forall j | 0 <= j < |tail| - 1 ensures Instantiates(defs, tail[j], tail[j + 1]) {
      assert Instantiates(defs, walk[i + j], walk[i + j + 1]);
    }
  }

  // ----- the order of a recursive visit -----

  /** Appends `d` after its links, unless it is listed already. */
  ghost function Visit(defs: Definitions, order: seq<nat>, d: nat, done: seq<nat>): seq<nat>
    requires ChildrenFirst(defs, order) && d in order && d < |defs|
    decreases Rank(order, d), |defs[d]| + 1
  {
    if d in done then done else VisitLinks(defs, order, d, 0, done) + [d]
  }

  /** Visits the links of `d` in source order, from instance `k` on. */
  ghost function VisitLinks(defs: Definitions, order: seq<nat>, d: nat, k: nat, done: seq<nat>): seq<nat>
    requires ChildrenFirst(defs, order) && d in order && d < |defs| && k <= |defs[d]|
    decreases Rank(order, d), |defs[d]| - k
  {
    if k == |defs[d]| then done
    else if defs[d][k].binding.Design? then
      ChildRank(defs, order, d, k);
      VisitLinks(defs, order, d, k + 1, Visit(defs, order, defs[d][k].binding.definition, done))
    else VisitLinks(defs, order, d, k + 1, done)
  }

  predicate StackIn(defs: Definitions, order: seq<nat>, stack: seq<Frame>) {
    forall i :: 0 <= i < |stack| ==> stack[i].definition in order && Framed(defs, stack[i])
  }

  /** What the visit still has to do, from the innermost frame outwards. */
  ghost function Complete(defs: Definitions, order: seq<nat>, stack: seq<Frame>, done: seq<nat>): seq<nat>
    requires ChildrenFirst(defs, order) && StackIn(defs, order, stack)
  {
    if stack == [] then done else
    var top := stack[|stack| - 1];
    Complete(defs, order, stack[..|stack| - 1],
        VisitLinks(defs, order, top.definition, top.next, done) + [top.definition])
  }

  /** The search is part of the way through the recursive visit of the root, whatever
      children-first order witnesses that the visit ends. */
  ghost predicate Continues(defs: Definitions, root: nat, stack: seq<Frame>, done: seq<nat>) {
    forall order :: ChildrenFirst(defs, order) && root in order && root < |defs| ==>
      StackIn(defs, order, stack) && Complete(defs, order, stack, done) == Visit(defs, order, root, [])
  }

  lemma {:induction false} SkipLinks(defs: Definitions, order: seq<nat>, d: nat, k: nat, at: nat, done: seq<nat>)
    requires ChildrenFirst(defs, order) && d in order && d < |defs| && k <= at <= |defs[d]|
    requires forall i :: k <= i < at ==> !defs[d][i].binding.Design?
    ensures VisitLinks(defs, order, d, k, done) == VisitLinks(defs, order, d, at, done)
    decreases at - k
  {
    if k < at { SkipLinks(defs, order, d, k + 1, at, done); }
  }

  lemma BeginsVisit(defs: Definitions, root: nat)
    requires root < |defs|
    ensures Continues(defs, root, [Frame(root, 0)], [])
  {
    forall order | ChildrenFirst(defs, order) && root in order
      ensures StackIn(defs, order, [Frame(root, 0)])
      ensures Complete(defs, order, [Frame(root, 0)], []) == Visit(defs, order, root, [])
    {
      assert [Frame(root, 0)][..0] == [];
    }
  }

  lemma EntersVisit(defs: Definitions, root: nat, stack: seq<Frame>, done: seq<nat>, at: nat)
    requires Continues(defs, root, stack, done) && stack != [] && Framed(defs, stack[|stack| - 1])
    requires var top := stack[|stack| - 1];
             && top.next <= at < |defs[top.definition]| && defs[top.definition][at].binding.Design?
             && (forall i :: top.next <= i < at ==> !defs[top.definition][i].binding.Design?)
             && defs[top.definition][at].binding.definition !in done
             && defs[top.definition][at].binding.definition < |defs|
    ensures var top := stack[|stack| - 1];
            var c := defs[top.definition][at].binding.definition;
            Continues(defs, root, stack[..|stack| - 1] + [Frame(top.definition, at + 1), Frame(c, 0)], done)
  {
    var last := |stack| - 1;
    var d := stack[last].definition;
    var c := defs[d][at].binding.definition;
    assert stack == stack[..last] + [stack[last]];
    forall order | ChildrenFirst(defs, order) && root in order && root < |defs|
      ensures StackIn(defs, order, stack[..last] + [Frame(d, at + 1), Frame(c, 0)])
      ensures Complete(defs, order, stack[..last] + [Frame(d, at + 1), Frame(c, 0)], done)
          == Visit(defs, order, root, [])
    {
      assert StackIn(defs, order, stack);
      hide Complete, Visit, VisitLinks, ChildrenFirst;
      EntersFrame(defs, order, stack[..last], stack[last], done, at);
    }
  }

  /** Opening a frame for the next link leaves the same work to do. */
  lemma EntersFrame(
      defs: Definitions, order: seq<nat>, outer: seq<Frame>, top: Frame, done: seq<nat>, at: nat
    )
    requires ChildrenFirst(defs, order) && StackIn(defs, order, outer)
    requires top.definition in order && Framed(defs, top)
    requires top.next <= at < |defs[top.definition]| && defs[top.definition][at].binding.Design?
    requires forall i :: top.next <= i < at ==> !defs[top.definition][i].binding.Design?
    requires defs[top.definition][at].binding.definition !in done
    ensures StackIn(defs, order, outer + [top])
    ensures var c := defs[top.definition][at].binding.definition;
            var entered := outer + [Frame(top.definition, at + 1), Frame(c, 0)];
            StackIn(defs, order, entered)
            && Complete(defs, order, entered, done) == Complete(defs, order, outer + [top], done)
  {
    var d := top.definition;
    var c := defs[d][at].binding.definition;
    LinkVisited(defs, order, d, top.next, at, done);
    VisitsFirst(defs, order, c, done);
    hide Complete, Visit, VisitLinks, ChildrenFirst;
    var middle := outer + [Frame(d, at + 1)];
    assert middle + [Frame(c, 0)] == outer + [Frame(d, at + 1), Frame(c, 0)];
    Innermost(defs, order, outer, Frame(d, at + 1), VisitLinks(defs, order, c, 0, done) + [c]);
    Innermost(defs, order, middle, Frame(c, 0), done);
    Innermost(defs, order, outer, top, done);
  }

  lemma VisitsFirst(defs: Definitions, order: seq<nat>, d: nat, done: seq<nat>)
    requires ChildrenFirst(defs, order) && d in order && d < |defs| && d !in done
    ensures Visit(defs, order, d, done) == VisitLinks(defs, order, d, 0, done) + [d]
  {
  }

  lemma Innermost(defs: Definitions, order: seq<nat>, outer: seq<Frame>, top: Frame, done: seq<nat>)
    requires ChildrenFirst(defs, order) && StackIn(defs, order, outer) && top.definition in order && Framed(defs, top)
    ensures StackIn(defs, order, outer + [top])
    ensures Complete(defs, order, outer + [top], done)
         == Complete(defs, order, outer, VisitLinks(defs, order, top.definition, top.next, done) + [top.definition])
  {
    assert (outer + [top])[..|outer|] == outer;
  }

  /** The next link is visited before the rest. */
  lemma LinkVisited(defs: Definitions, order: seq<nat>, d: nat, k: nat, at: nat, done: seq<nat>)
    requires ChildrenFirst(defs, order) && d in order && d < |defs| && k <= at < |defs[d]|
    requires defs[d][at].binding.Design?
    requires forall i :: k <= i < at ==> !defs[d][i].binding.Design?
    ensures var c := defs[d][at].binding.definition;
            && c in order && c < |defs|
            && VisitLinks(defs, order, d, k, done) == VisitLinks(defs, order, d, at + 1, Visit(defs, order, c, done))
  {
    SkipLinks(defs, order, d, k, at, done);
    ChildRank(defs, order, d, at);
  }

  lemma PassesVisit(defs: Definitions, root: nat, stack: seq<Frame>, done: seq<nat>, at: nat)
    requires Continues(defs, root, stack, done) && stack != [] && Framed(defs, stack[|stack| - 1])
    requires var top := stack[|stack| - 1];
             && top.next <= at < |defs[top.definition]| && defs[top.definition][at].binding.Design?
             && (forall i :: top.next <= i < at ==> !defs[top.definition][i].binding.Design?)
             && defs[top.definition][at].binding.definition in done
    ensures Continues(defs, root, stack[..|stack| - 1] + [Frame(stack[|stack| - 1].definition, at + 1)], done)
  {
    var last := |stack| - 1;
    var d := stack[last].definition;
    var stack' := stack[..last] + [Frame(d, at + 1)];
    forall order | ChildrenFirst(defs, order) && root in order && root < |defs|
      ensures StackIn(defs, order, stack')
      ensures Complete(defs, order, stack', done) == Visit(defs, order, root, [])
    {
      assert StackIn(defs, order, stack);
      hide VisitLinks;
      LinkVisited(defs, order, d, stack[last].next, at, done);
      Innermost(defs, order, stack[..last], Frame(d, at + 1), done);
      assert stack == stack[..last] + [stack[last]];
      Innermost(defs, order, stack[..last], stack[last], done);
    }
  }

  lemma LeavesVisit(defs: Definitions, root: nat, stack: seq<Frame>, done: seq<nat>)
    requires Continues(defs, root, stack, done) && stack != [] && Framed(defs, stack[|stack| - 1])
    requires var top := stack[|stack| - 1];
             forall i :: top.next <= i < |defs[top.definition]| ==> !defs[top.definition][i].binding.Design?
    ensures Continues(defs, root, stack[..|stack| - 1], done + [stack[|stack| - 1].definition])
  {
    var last := |stack| - 1;
    var d := stack[last].definition;
    forall order | ChildrenFirst(defs, order) && root in order && root < |defs|
      ensures StackIn(defs, order, stack[..last])
      ensures Complete(defs, order, stack[..last], done + [d]) == Visit(defs, order, root, [])
    {
      assert StackIn(defs, order, stack);
      SkipLinks(defs, order, d, stack[last].next, |defs[d]|, done);
      assert stack == stack[..last] + [stack[last]];
      Innermost(defs, order, stack[..last], stack[last], done);
    }
  }

  /** The visit does not depend on which children-first order witnesses that it ends. */
  lemma {:induction false} VisitAnyOrder(defs: Definitions, order: seq<nat>, other: seq<nat>, d: nat, done: seq<nat>)
    requires ChildrenFirst(defs, order) && d in order && d < |defs| && ChildrenFirst(defs, other) && d in other
    ensures Visit(defs, order, d, done) == Visit(defs, other, d, done)
    decreases Rank(order, d), |defs[d]| + 1
  {
    VisitLinksAnyOrder(defs, order, other, d, 0, done);
  }

  lemma {:induction false} VisitLinksAnyOrder(defs: Definitions, order: seq<nat>, other: seq<nat>, d: nat, k: nat,
                                              done: seq<nat>)
    requires ChildrenFirst(defs, order) && d in order && d < |defs| && ChildrenFirst(defs, other) && d in other
    requires k <= |defs[d]|
    ensures VisitLinks(defs, order, d, k, done) == VisitLinks(defs, other, d, k, done)
    decreases Rank(order, d), |defs[d]| - k
  {
    if k < |defs[d]| {
      var next := done;
      if defs[d][k].binding.Design? {
        ChildRank(defs, order, d, k);
        ChildRank(defs, other, d, k);
        VisitAnyOrder(defs, order, other, defs[d][k].binding.definition, done);
        next := Visit(defs, order, defs[d][k].binding.definition, done);
      }
      VisitLinksAnyOrder(defs, order, other, d, k + 1, next);
    }
  }

  // ----- the search -----

  datatype Frame = Frame(definition: nat, next: nat)
  datatype Order = Ordered(postorder: seq<nat>) | Recursive(cycle: seq<nat>)

  predicate Framed(defs: Definitions, frame: Frame) {
    frame.definition < |defs| && frame.next <= |defs[frame.definition]|
  }

  /** Every link already scanned in frame `i` is finished or is the next frame. */
  predicate Scanned(defs: Definitions, colors: seq<nat>, stack: seq<Frame>, i: nat)
    requires i < |stack|
  {
    && Framed(defs, stack[i])
    && forall k :: 0 <= k < stack[i].next && defs[stack[i].definition][k].binding.Design? ==>
         var c := defs[stack[i].definition][k].binding.definition;
         (c < |colors| && colors[c] == 2) || (i + 1 < |stack| && stack[i + 1].definition == c)
  }

  function Path(stack: seq<Frame>): (path: seq<nat>)
    ensures |path| == |stack| && forall i :: 0 <= i < |path| ==> path[i] == stack[i].definition
  {
    seq(|stack|, i requires 0 <= i < |stack| => stack[i].definition)
  }

  predicate Colored(defs: Definitions, colors: seq<nat>, path: seq<nat>, order: seq<nat>) {
    && |colors| == |defs|
    && (forall d :: 0 <= d < |colors| ==>
         (colors[d] == 1 <==> d in path) && (colors[d] == 2 <==> d in order) && colors[d] <= 2)
    && (forall d :: d in path ==> d < |defs|)
    && (forall d :: d in order ==> d < |defs|)
  }

  /** What the search keeps: gray definitions are the current walk from the root,
      black ones are a children-first list of reachable definitions. */
  ghost predicate Searching(defs: Definitions, root: nat, colors: seq<nat>, stack: seq<Frame>, order: seq<nat>) {
    && Colored(defs, colors, Path(stack), order)
    && Distinct(Path(stack)) && Distinct(order) && ChildrenFirst(defs, order)
    && (forall i :: 0 <= i < |stack| ==> Framed(defs, stack[i]))
    && (forall i :: 0 <= i < |stack| ==> Scanned(defs, colors, stack, i))
    && (if stack == [] then root in order else Walk(defs, Path(stack)) && stack[0].definition == root)
    && (forall d :: d in order ==> Reachable(defs, root, d))
  }

  function White(colors: seq<nat>): (n: nat) {
    if colors == [] then 0 else (if colors[0] == 0 then 1 else 0) + White(colors[1..])
  }

  lemma {:induction false} WhiteFalls(colors: seq<nat>, d: nat, color: nat)
    requires d < |colors| && color != 0
    ensures White(colors[d := color]) == White(colors) - (if colors[d] == 0 then 1 else 0)
  {
    if d == 0 {
      assert colors[d := color][1..] == colors[1..];
    } else {
      assert colors[d := color][1..] == colors[1..][d - 1 := color];
      WhiteFalls(colors[1..], d - 1, color);
    }
  }

  /** Entering an unvisited definition. */
  lemma Enter(defs: Definitions, root: nat, colors: seq<nat>, stack: seq<Frame>, order: seq<nat>, next: nat)
    requires Linked(defs) && Searching(defs, root, colors, stack, order) && stack != []
    requires Framed(defs, stack[|stack| - 1])
    requires var top := stack[|stack| - 1];
             top.next <= next < |defs[top.definition]|
             && (forall k :: top.next <= k < next ==> !defs[top.definition][k].binding.Design?)
             && defs[top.definition][next].binding.Design?
             && colors[defs[top.definition][next].binding.definition] == 0
    ensures var top := stack[|stack| - 1];
            var c := defs[top.definition][next].binding.definition;
            Searching(defs, root, colors[c := 1], stack[..|stack| - 1] + [Frame(top.definition, next + 1), Frame(c, 0)],
                order)
  {
    hide Reachable, ChildrenFirst;
    var last := |stack| - 1;
    var d := stack[last].definition;
    var c := defs[d][next].binding.definition;
    var stack' := stack[..last] + [Frame(d, next + 1), Frame(c, 0)];
    assert Path(stack') == Path(stack) + [c];
    assert Instantiates(defs, d, c);
    WalkExtends(defs, Path(stack), c);
    assert c !in Path(stack) && c !in order;
    var colors' := colors[c := 1];
    forall i | 0 <= i < |stack'| ensures Scanned(defs, colors', stack', i) {
      if i < last { assert Scanned(defs, colors, stack, i); }
      if i == last { assert Scanned(defs, colors, stack, last); }
    }
  }

  /** Passing a link to a finished definition. */
  lemma Pass(defs: Definitions, root: nat, colors: seq<nat>, stack: seq<Frame>, order: seq<nat>, next: nat)
    requires Linked(defs) && Searching(defs, root, colors, stack, order) && stack != []
    requires Framed(defs, stack[|stack| - 1])
    requires var top := stack[|stack| - 1];
             top.next <= next <= |defs[top.definition]|
             && forall k :: top.next <= k < next && defs[top.definition][k].binding.Design? ==>
                  colors[defs[top.definition][k].binding.definition] == 2
    ensures Searching(defs, root, colors, stack[..|stack| - 1] + [Frame(stack[|stack| - 1].definition, next)], order)
  {
    hide Reachable, ChildrenFirst;
    var last := |stack| - 1;
    var stack' := stack[..last] + [Frame(stack[last].definition, next)];
    assert Path(stack') == Path(stack);
    forall i | 0 <= i < |stack'| ensures Scanned(defs, colors, stack', i) {
      assert Scanned(defs, colors, stack, i);
    }
  }

  /** Leaving a definition whose links are all finished. */
  lemma Leave(defs: Definitions, root: nat, colors: seq<nat>, stack: seq<Frame>, order: seq<nat>)
    requires Linked(defs) && Searching(defs, root, colors, stack, order) && stack != []
    requires Framed(defs, stack[|stack| - 1])
    requires stack[|stack| - 1].next == |defs[stack[|stack| - 1].definition]|
    ensures var d := stack[|stack| - 1].definition;
            Searching(defs, root, colors[d := 2], stack[..|stack| - 1], order + [d])
  {
    hide Reachable, ChildrenFirst, Walk, Distinct;
    var last := |stack| - 1;
    var d := stack[last].definition;
    var rest := stack[..last];
    var colors' := colors[d := 2];
    assert Path(stack) == Path(rest) + [d];
    assert d in Path(stack);
    Blacken(defs, colors, Path(rest), order, d);
    assert Scanned(defs, colors, stack, last);
    Finished(defs, colors, Path(stack), order, d);
    forall i | 0 <= i < |rest| ensures Scanned(defs, colors', rest, i) {
      assert Scanned(defs, colors, stack, i);
    }
    ReachedBy(defs, Path(stack));
    if rest != [] {
      WalkSuffix(defs, Path(stack), last - 1);
      assert Path(stack)[..last] == Path(rest);
    }
  }

  lemma Blacken(defs: Definitions, colors: seq<nat>, path: seq<nat>, order: seq<nat>, d: nat)
    requires Colored(defs, colors, path + [d], order) && Distinct(path + [d]) && Distinct(order)
    ensures d < |defs| && Colored(defs, colors[d := 2], path, order + [d]) && Distinct(path) && Distinct(order + [d])
  {
    assert (path + [d])[|path|] == d;
    assert d in path + [d];
    assert d !in path by {
      forall i | 0 <= i < |path| ensures path[i] != d { assert (path + [d])[i] != (path + [d])[|path|]; }
    }
    forall i, j | 0 <= i < j < |path| ensures path[i] != path[j] {
      assert (path + [d])[i] != (path + [d])[j];
    }
    var colors' := colors[d := 2];
    forall e | 0 <= e < |colors'|
      ensures (colors'[e] == 1 <==> e in path) && (colors'[e] == 2 <==> e in order + [d]) && colors'[e] <= 2
    {
      assert e in path + [d] <==> e in path || e == d;
    }
    forall e | e in path ensures e < |defs| { assert e in path + [d]; }
  }

  lemma ReachedBy(defs: Definitions, walk: seq<nat>)
    requires Walk(defs, walk)
    ensures Reachable(defs, walk[0], walk[|walk| - 1])
  {
  }

  lemma Finished(defs: Definitions, colors: seq<nat>, path: seq<nat>, order: seq<nat>, d: nat)
    requires Colored(defs, colors, path, order) && ChildrenFirst(defs, order) && d < |defs|
    requires forall k :: 0 <= k < |defs[d]| && defs[d][k].binding.Design? ==>
               defs[d][k].binding.definition < |colors| && colors[defs[d][k].binding.definition] == 2
    ensures ChildrenFirst(defs, order + [d])
  {
    var order' := order + [d];
    forall i | 0 <= i < |order'|
      ensures order'[i] < |defs|
      ensures forall k :: 0 <= k < |defs[order'[i]]| && defs[order'[i]][k].binding.Design? ==>
                defs[order'[i]][k].binding.definition in order'[..i]
    {
      if i < |order| { assert order'[..i] == order[..i]; } else { assert order'[..i] == order; }
    }
  }

  /** A link back into the current walk closes a cycle. */
  lemma Closes(defs: Definitions, root: nat, walk: seq<nat>, start: nat, c: nat)
    requires Walk(defs, walk) && walk[0] == root && start < |walk| && walk[start] == c
    requires Instantiates(defs, walk[|walk| - 1], c)
    ensures Recursion(defs, root, walk[start..] + [c]) && ContainsItself(defs, root)
  {
    WalkSuffix(defs, walk, start);
    WalkExtends(defs, walk[start..], c);
    ReachedBy(defs, walk[..start + 1]);
    assert Recursion(defs, root, walk[start..] + [c]);
  }

  lemma Exhausted(defs: Definitions, root: nat, colors: seq<nat>, order: seq<nat>)
    requires Searching(defs, root, colors, [], order)
    ensures PostorderOf(defs, root, order)
  {
    forall d: nat ensures d in order <==> Reachable(defs, root, d) {
      if Reachable(defs, root, d) {
        var walk :| Walk(defs, walk) && walk[0] == root && walk[|walk| - 1] == d;
        WalkStays(defs, order, walk);
      }
    }
  }

  /** The next link of `d` at or after `next`, or the end of its instances. */
  method NextLink(defs: Definitions, d: nat, next: nat) returns (at: nat)
    requires d < |defs| && next <= |defs[d]|
    ensures next <= at <= |defs[d]|
    ensures forall k :: next <= k < at ==> !defs[d][k].binding.Design?
    ensures at < |defs[d]| ==> defs[d][at].binding.Design?
  {
    at := next;
    while at < |defs[d]| && !defs[d][at].binding.Design?
      invariant next <= at <= |defs[d]|
      invariant forall k :: next <= k < at ==> !defs[d][k].binding.Design?
    {
      at := at + 1;
    }
  }

  method Position(path: seq<nat>, target: nat) returns (start: nat)
    requires target in path
    ensures start < |path| && path[start] == target && target !in path[..start]
  {
    start := 0;
    while path[start] != target
      invariant start < |path| && target !in path[..start]
      decreases |path| - start
    {
      assert path[..start + 1] == path[..start] + [path[start]];
      assert path[..|path|] == path;
      start := start + 1;
    }
  }

  /** The part of the current walk from its visit of `c` on, closed by `c`. */
  method Cycle(defs: Definitions, ghost root: nat, path: seq<nat>, c: nat) returns (cycle: seq<nat>)
    requires Walk(defs, path) && path[0] == root && Distinct(path) && c in path
    requires Instantiates(defs, path[|path| - 1], c)
    ensures Recursion(defs, root, cycle) && ContainsItself(defs, root) && Distinct(cycle[1..])
  {
    hide Recursion, ContainsItself, Walk, Instantiates;
    var start := Position(path, c);
    Closes(defs, root, path, start, c);
    cycle := path[start..] + [c];
    assert cycle[1..] == path[start + 1..] + [c];
  }

  method ComputePostorder(defs: Definitions, root: nat) returns (result: Order)
    requires Linked(defs) && root < |defs|
    ensures result.Ordered? <==> !ContainsItself(defs, root)
    ensures result.Ordered? ==> PostorderOf(defs, root, result.postorder)
    ensures result.Ordered? ==>
              && ChildrenFirst(defs, result.postorder) && root in result.postorder
              && result.postorder == Visit(defs, result.postorder, root, [])
    ensures result.Recursive? ==> Recursion(defs, root, result.cycle) && Distinct(result.cycle[1..])
  {
    hide Linked, Scanned, Distinct, White, Reachable, Walk, ChildrenFirst, Recursion, PostorderOf, ContainsItself,
        Instantiates, Continues, Visit;
    var colors: seq<nat> := seq(|defs|, _ => 0)[root := 1];
    var stack := [Frame(root, 0)];
    var order: seq<nat> := [];
    Starts(defs, root, colors);
    BeginsVisit(defs, root);
    while stack != []
      invariant Searching(defs, root, colors, stack, order)
      invariant Continues(defs, root, stack, order)
      decreases White(colors), |stack|, Remaining(defs, stack)
    {
      hide Searching;
      var last := |stack| - 1;
      Top(defs, root, colors, stack, order);
      var d := stack[last].definition;
      var at := NextLink(defs, d, stack[last].next);
      if at < |defs[d]| {
        Target(defs, d, at);
        var c := defs[d][at].binding.definition;
        if colors[c] == 0 {
          Enter(defs, root, colors, stack, order, at);
          EntersVisit(defs, root, stack, order, at);
          WhiteFalls(colors, c, 1);
          colors := colors[c := 1];
          stack := stack[..last] + [Frame(d, at + 1), Frame(c, 0)];
        } else if colors[c] == 1 {
          Gray(defs, root, colors, stack, order, c);
          var cycle := Cycle(defs, root, Path(stack), c);
          return Recursive(cycle);
        } else {
          Pass(defs, root, colors, stack, order, at + 1);
          PassesVisit(defs, root, stack, order, at);
          stack := stack[..last] + [Frame(d, at + 1)];
        }
      } else {
        Pass(defs, root, colors, stack, order, at);
        Leave(defs, root, colors, stack[..last] + [Frame(d, at)], order);
        LeavesVisit(defs, root, stack, order);
        assert (stack[..last] + [Frame(d, at)])[..last] == stack[..last];
        WhiteFalls(colors, d, 2);
        colors := colors[d := 2];
        stack := stack[..last];
        order := order + [d];
      }
    }
    Exhausted(defs, root, colors, order);
    VisitEnds(defs, root, order);
    OrderedIsAcyclic(defs, root, order);
    result := Ordered(order);
  }

  lemma VisitEnds(defs: Definitions, root: nat, order: seq<nat>)
    requires PostorderOf(defs, root, order) && root < |defs| && Continues(defs, root, [], order)
    ensures ChildrenFirst(defs, order) && root in order && order == Visit(defs, order, root, [])
  {
    ReachedBy(defs, [root]);
    assert Complete(defs, order, [], order) == order;
  }

  /** The instances of the innermost definition still to scan. */
  function Remaining(defs: Definitions, stack: seq<Frame>): nat {
    if stack != [] && Framed(defs, stack[|stack| - 1])
    then |defs[stack[|stack| - 1].definition]| - stack[|stack| - 1].next else 0
  }

  lemma Starts(defs: Definitions, root: nat, colors: seq<nat>)
    requires root < |defs| && |colors| == |defs| && colors[root] == 1
    requires forall d :: 0 <= d < |colors| && d != root ==> colors[d] == 0
    ensures Searching(defs, root, colors, [Frame(root, 0)], [])
  {
    assert Path([Frame(root, 0)]) == [root];
    assert Scanned(defs, colors, [Frame(root, 0)], 0);
  }

  lemma Top(defs: Definitions, root: nat, colors: seq<nat>, stack: seq<Frame>, order: seq<nat>)
    requires Searching(defs, root, colors, stack, order) && stack != []
    ensures var top := stack[|stack| - 1];
            top.definition < |defs| && top.next <= |defs[top.definition]| && colors[top.definition] == 1
    ensures |colors| == |defs| && forall d :: 0 <= d < |colors| ==> colors[d] <= 2 && (colors[d] == 2 <==> d in order)
  {
    assert Scanned(defs, colors, stack, |stack| - 1);
    assert stack[|stack| - 1].definition in Path(stack);
  }

  lemma Gray(defs: Definitions, root: nat, colors: seq<nat>, stack: seq<Frame>, order: seq<nat>, c: nat)
    requires Searching(defs, root, colors, stack, order) && stack != [] && c < |colors| && colors[c] == 1
    ensures c in Path(stack) && Distinct(Path(stack)) && Walk(defs, Path(stack)) && Path(stack)[0] == root
  {
  }

  lemma Target(defs: Definitions, d: nat, k: nat)
    requires Linked(defs) && d < |defs| && k < |defs[d]| && defs[d][k].binding.Design?
    ensures defs[d][k].binding.definition < |defs| && Instantiates(defs, d, defs[d][k].binding.definition)
  {
  }
}
