/** The first unresolved instance of a definition graph: one linear pass over
    definitions stands in for a walk of the fully expanded hierarchy. */
module Hierarchy {
  import opened Lists

  datatype Binding = Unresolved | Design(definition: nat) | External
  datatype Instance = Instance(name: nat, binding: Binding)

  /** A definition is its list of instances in source order. */
  type Definitions = seq<seq<Instance>>

  /** A hierarchical path, with the definition and instance it ends in. */
  datatype Occurrence = Occurrence(path: seq<nat>, parent: nat, instance: nat)

  // ----- child-before-parent orders -----

  function Rank(order: seq<nat>, d: nat): (i: nat)
    ensures i <= |order| && (i < |order| <==> d in order)
    ensures i < |order| ==> order[i] == d
    ensures forall j :: 0 <= j < i ==> order[j] != d
  {
    if order == [] then 0 else if order[0] == d then 0
    else
      var rest := Rank(order[1..], d);
      assert forall j :: 1 <= j < |order| ==> order[j] == order[1..][j - 1];
      rest + 1
  }

  /** Every listed definition is known, and the definitions it instantiates are listed before it. */
  predicate ChildrenFirst(defs: Definitions, order: seq<nat>) {
    forall i :: 0 <= i < |order| ==>
      order[i] < |defs| &&
      forall k :: 0 <= k < |defs[order[i]]| && defs[order[i]][k].binding.Design? ==>
        defs[order[i]][k].binding.definition in order[..i]
  }

  lemma ChildRank(defs: Definitions, order: seq<nat>, d: nat, k: nat)
    requires ChildrenFirst(defs, order) && d in order && d < |defs| && k < |defs[d]| && defs[d][k].binding.Design?
    ensures defs[d][k].binding.definition in order && defs[d][k].binding.definition < |defs|
    ensures Rank(order, defs[d][k].binding.definition) < Rank(order, d)
  {
    var i := Rank(order, d);
    var c := defs[d][k].binding.definition;
    assert c in order[..i];
    var j :| 0 <= j < i && order[j] == c;
  }

  // ----- the expanded hierarchy -----

  function Prefixed(name: nat, occurrences: seq<Occurrence>): (r: seq<Occurrence>)
    ensures |r| == |occurrences|
    ensures forall i :: 0 <= i < |r| ==>
        r[i] == Occurrence([name] + occurrences[i].path, occurrences[i].parent, occurrences[i].instance)
  {
    seq(|occurrences|, i requires 0 <= i < |occurrences| =>
      Occurrence([name] + occurrences[i].path, occurrences[i].parent, occurrences[i].instance))
  }

  /** All unresolved occurrences below `d`, from instance `k` on, in the order a
      source-order preorder walk of the expanded hierarchy meets them. */
  ghost function Expand(defs: Definitions, order: seq<nat>, d: nat, k: nat): seq<Occurrence>
    requires ChildrenFirst(defs, order) && d in order && d < |defs| && k <= |defs[d]|
    decreases Rank(order, d), |defs[d]| - k, 1
  {
    if k == |defs[d]| then [] else Here(defs, order, d, k) + Expand(defs, order, d, k + 1)
  }

  /** What instance `k` itself contributes. */
  ghost function Here(defs: Definitions, order: seq<nat>, d: nat, k: nat): seq<Occurrence>
    requires ChildrenFirst(defs, order) && d in order && d < |defs| && k < |defs[d]|
    decreases Rank(order, d), |defs[d]| - k, 0
  {
    var instance := defs[d][k];
    if instance.binding.Unresolved? then [Occurrence([instance.name], d, k)]
    else if instance.binding.Design? then
      ChildRank(defs, order, d, k);
      Prefixed(instance.name, Expand(defs, order, instance.binding.definition, 0))
    else []
  }

  /** The expansion does not depend on which children-first order witnesses that it is finite. */
  lemma {:induction false} ExpandAnyOrder(defs: Definitions, order: seq<nat>, other: seq<nat>, d: nat, k: nat)
    requires ChildrenFirst(defs, order) && d in order && d < |defs| && k <= |defs[d]|
    requires ChildrenFirst(defs, other) && d in other
    ensures Expand(defs, order, d, k) == Expand(defs, other, d, k)
    decreases Rank(order, d), |defs[d]| - k
  {
    if k < |defs[d]| {
      if defs[d][k].binding.Design? {
        ChildRank(defs, order, d, k);
        ChildRank(defs, other, d, k);
        ExpandAnyOrder(defs, order, other, defs[d][k].binding.definition, 0);
      }
      ExpandAnyOrder(defs, order, other, d, k + 1);
    }
  }

  /** The first occurrence of the expansion, if there is one. */
  ghost function FirstOf(defs: Definitions, order: seq<nat>, d: nat): Option<Occurrence>
    requires ChildrenFirst(defs, order) && d in order && d < |defs|
  {
    var all := Expand(defs, order, d, 0);
    if all == [] then None else Some(all[0])
  }

  // ----- one step per definition -----

  datatype Step = Terminal(instance: nat) | Child(instance: nat, definition: nat)

  /** `step` is where the first occurrence among instances `k..` of `d` starts. */
  ghost predicate StepIs(defs: Definitions, order: seq<nat>, d: nat, k: nat, step: Option<Step>)
    requires ChildrenFirst(defs, order) && d in order && d < |defs| && k <= |defs[d]|
  {
    var all := Expand(defs, order, d, k);
    match step
    case None => all == []
    case Some(Terminal(i)) => k <= i < |defs[d]| && all != [] && all[0] == Occurrence([defs[d][i].name], d, i)
    case Some(Child(i, c)) =>
      && k <= i < |defs[d]| && defs[d][i].binding == Design(c) && all != []
      && c in order && c < |defs| && Rank(order, c) < Rank(order, d)
      && FirstOf(defs, order, c).Some?
      && var first := FirstOf(defs, order, c).value;
         all[0] == Occurrence([defs[d][i].name] + first.path, first.parent, first.instance)
  }

  ghost predicate Known(defs: Definitions, order: seq<nat>, steps: seq<Option<Step>>, n: nat)
    requires ChildrenFirst(defs, order) && n <= |order|
  {
    && |steps| == |defs|
    && forall i :: 0 <= i < n ==>
         && order[i] in order && order[i] < |defs|
         && StepIs(defs, order, order[i], 0, steps[order[i]])
  }

  /** Finds the first instance that is unresolved or leads to something unresolved. */
  method FindStep(defs: Definitions, ghost order: seq<nat>, d: nat, steps: seq<Option<Step>>, ghost n: nat)
      returns (step: Option<Step>)
    requires ChildrenFirst(defs, order) && n < |order| && order[n] == d && d < |defs| && Known(defs, order, steps, n)
    ensures d in order && StepIs(defs, order, d, 0, step)
  {
    hide Expand, StepIs, FirstOf;
    var k := 0;
    InOrder(order, n);
    while k < |defs[d]|
      invariant k <= |defs[d]|
      invariant Expand(defs, order, d, 0) == Expand(defs, order, d, k)
    {
      match defs[d][k].binding {
        case Unresolved =>
          TerminalStep(defs, order, d, k);
          return Some(Terminal(k));
        case Design(c) =>
          ChildRank(defs, order, d, k);
          Earlier(defs, order, d, n, k);
          ghost var j :| 0 <= j < n && order[j] == c;
          StepFinds(defs, order, c, steps[c]);
          if steps[c].Some? {
            ChildStep(defs, order, d, k);
            return Some(Child(k, c));
          }
          SkipStep(defs, order, d, k);
        case External =>
          SkipStep(defs, order, d, k);
      }
      k := k + 1;
    }
    NoStep(defs, order, d);
    step := None;
  }

  lemma InOrder(order: seq<nat>, n: nat)
    requires n < |order|
    ensures order[n] in order
  {
  }

  lemma StepFinds(defs: Definitions, order: seq<nat>, d: nat, step: Option<Step>)
    requires ChildrenFirst(defs, order) && d in order && d < |defs| && StepIs(defs, order, d, 0, step)
    ensures step.Some? <==> FirstOf(defs, order, d).Some?
  {
  }

  lemma TerminalStep(defs: Definitions, order: seq<nat>, d: nat, k: nat)
    requires ChildrenFirst(defs, order) && d in order && d < |defs| && k < |defs[d]| && defs[d][k].binding.Unresolved?
    requires Expand(defs, order, d, 0) == Expand(defs, order, d, k)
    ensures StepIs(defs, order, d, 0, Some(Terminal(k)))
  {
  }

  lemma ChildStep(defs: Definitions, order: seq<nat>, d: nat, k: nat)
    requires ChildrenFirst(defs, order) && d in order && d < |defs| && k < |defs[d]| && defs[d][k].binding.Design?
    requires Expand(defs, order, d, 0) == Expand(defs, order, d, k)
    requires defs[d][k].binding.definition in order && defs[d][k].binding.definition < |defs|
    requires FirstOf(defs, order, defs[d][k].binding.definition).Some?
    ensures StepIs(defs, order, d, 0, Some(Child(k, defs[d][k].binding.definition)))
  {
    ChildRank(defs, order, d, k);
    var below := Expand(defs, order, defs[d][k].binding.definition, 0);
    assert Expand(defs, order, d, k) == Prefixed(defs[d][k].name, below) + Expand(defs, order, d, k + 1);
  }

  /** An instance with nothing unresolved below it contributes nothing. */
  lemma SkipStep(defs: Definitions, order: seq<nat>, d: nat, k: nat)
    requires ChildrenFirst(defs, order) && d in order && d < |defs| && k < |defs[d]| && !defs[d][k].binding.Unresolved?
    requires defs[d][k].binding.Design? ==>
               && defs[d][k].binding.definition in order && defs[d][k].binding.definition < |defs|
               && FirstOf(defs, order, defs[d][k].binding.definition).None?
    ensures Expand(defs, order, d, k) == Expand(defs, order, d, k + 1)
  {
    if defs[d][k].binding.Design? {
      ChildRank(defs, order, d, k);
      var below := Expand(defs, order, defs[d][k].binding.definition, 0);
      assert Expand(defs, order, d, k) == Prefixed(defs[d][k].name, below) + Expand(defs, order, d, k + 1);
    }
  }

  lemma NoStep(defs: Definitions, order: seq<nat>, d: nat)
    requires ChildrenFirst(defs, order) && d in order && d < |defs|
    requires Expand(defs, order, d, 0) == Expand(defs, order, d, |defs[d]|)
    ensures StepIs(defs, order, d, 0, None)
  {
  }

  lemma Earlier(defs: Definitions, order: seq<nat>, d: nat, n: nat, k: nat)
    requires ChildrenFirst(defs, order) && n < |order| && order[n] == d && d < |defs| && k < |defs[d]|
    requires defs[d][k].binding.Design?
    ensures exists j :: 0 <= j < n && order[j] == defs[d][k].binding.definition
  {
    assert defs[d][k].binding.definition in order[..n];
    var j :| 0 <= j < n && order[..n][j] == defs[d][k].binding.definition;
    assert order[j] == defs[d][k].binding.definition;
  }

  /** Returns exactly what the walk of the expanded hierarchy would meet first. */
  method FindFirstUnresolved(defs: Definitions, root: nat, order: seq<nat>) returns (found: Option<Occurrence>)
    requires ChildrenFirst(defs, order) && root in order && root < |defs|
    ensures found == FirstOf(defs, order, root)
  {
    hide Expand, StepIs, FirstOf;
    var steps: seq<Option<Step>> := seq(|defs|, _ => None);
    for n := 0 to |order|
      invariant Known(defs, order, steps, n)
    {
      var d := order[n];
      var step := FindStep(defs, order, d, steps, n);
      var steps' := steps[d := step];
      forall i | 0 <= i < n + 1
        ensures order[i] in order && StepIs(defs, order, order[i], 0, steps'[order[i]])
      {
        if order[i] != d { assert StepIs(defs, order, order[i], 0, steps[order[i]]); }
      }
      steps := steps';
    }
    var definition := root;
    var path: seq<nat> := [];
    assert FirstOf(defs, order, root).Some? ==>
        [] + FirstOf(defs, order, root).value.path == FirstOf(defs, order, root).value.path;
    while true
      invariant definition in order && definition < |defs|
      invariant FirstOf(defs, order, root) == Under(path, FirstOf(defs, order, definition))
      decreases Rank(order, definition)
    {
      ghost var i := Rank(order, definition);
      assert StepIs(defs, order, order[i], 0, steps[order[i]]);
      StepFollows(defs, order, definition, steps[definition], path);
      match steps[definition] {
        case None => return None;
        case Some(Terminal(instance)) =>
          return Some(Occurrence(path + [defs[definition][instance].name], definition, instance));
        case Some(Child(instance, child)) =>
          path := path + [defs[definition][instance].name];
          definition := child;
      }
    }
  }

  ghost function Under(path: seq<nat>, first: Option<Occurrence>): Option<Occurrence> {
    match first
    case None => None
    case Some(o) => Some(Occurrence(path + o.path, o.parent, o.instance))
  }

  /** Following a step keeps the occurrence that is being spelled out. */
  lemma StepFollows(defs: Definitions, order: seq<nat>, d: nat, step: Option<Step>, path: seq<nat>)
    requires ChildrenFirst(defs, order) && d in order && d < |defs| && StepIs(defs, order, d, 0, step)
    ensures step.None? ==> FirstOf(defs, order, d).None?
    ensures step.Some? && step.value.Terminal? ==>
              && step.value.instance < |defs[d]|
              && Under(path, FirstOf(defs, order, d))
                  == Some(Occurrence(path + [defs[d][step.value.instance].name], d, step.value.instance))
    ensures step.Some? && step.value.Child? ==>
              && step.value.instance < |defs[d]| && step.value.definition in order && step.value.definition < |defs|
              && Rank(order, step.value.definition) < Rank(order, d)
              && Under(path, FirstOf(defs, order, d))
                 == Under(path + [defs[d][step.value.instance].name], FirstOf(defs, order, step.value.definition))
  {
    hide Expand;
    if step.Some? && step.value.Child? {
      var first := FirstOf(defs, order, step.value.definition).value;
      var name := defs[d][step.value.instance].name;
      assert path + ([name] + first.path) == path + [name] + first.path;
    }
  }
}
