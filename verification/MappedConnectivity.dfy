/** Intrusive pin lists of a mapped netlist: the validator accepts exactly the
    netlists whose lists are the true net-to-pin relation, and following a list
    on an accepted netlist enumerates that relation. */
module MappedConnectivity {
  import opened Lists

  datatype Signal = Net(net: nat) | Constant(value: bool)
  datatype Cell = Cell(live: bool, start: nat, end: nat)
  datatype NetPins = NetPins(head: Option<nat>, tail: Option<nat>)
  datatype PinLinks = PinLinks(previous: Option<nat>, next: Option<nat>)

  const NO_PINS: NetPins := NetPins(None, None)
  const NO_LINKS: PinLinks := PinLinks(None, None)

  datatype Netlist = Netlist(
    live: seq<bool>,
    netPins: seq<NetPins>,
    cells: seq<Cell>,
    connections: seq<Signal>,
    owners: seq<nat>,
    links: seq<PinLinks>)
  {
    predicate Aligned() {
      |connections| == |owners| == |links| && |live| == |netPins|
    }

    /** `pin` names its owner, a live cell whose range contains the pin. */
    predicate Owns(c: nat, pin: nat) {
      && pin < |owners| && owners[pin] == c
      && c < |cells| && cells[c].live && cells[c].start <= pin < cells[c].end
    }

    /** The live cell that owns `pin`. */
    function PinOwner(pin: nat): (owner: Option<nat>)
      ensures owner.Some? <==> pin < |owners| && Owns(owners[pin], pin)
      ensures owner.Some? ==> Owns(owner.value, pin)
    {
      if pin < |owners| && owners[pin] < |cells| && cells[owners[pin]].live
         && cells[owners[pin]].start <= pin < cells[owners[pin]].end
      then Some(owners[pin]) else None
    }

    /** `pin` belongs to a live cell and is connected to `net`. */
    predicate Attached(net: nat, pin: nat) {
      pin < |connections| && connections[pin] == Net(net) && pin < |owners| && Owns(owners[pin], pin)
    }
  }

  // ----- what the lists should be -----

  function At(list: seq<nat>, i: int): Option<nat> {
    if 0 <= i < |list| then Some(list[i]) else None
  }

  /** The first `|list|` steps from the head of `net`: attached pins, no
      repetition, and `previous` the inverse of `next`. */
  predicate Path(nl: Netlist, net: nat, list: seq<nat>)
    requires nl.Aligned() && net < |nl.live|
  {
    && Distinct(list)
    && (forall i :: 0 <= i < |list| ==> nl.Attached(net, list[i]))
    && (list != [] ==> nl.netPins[net].head == Some(list[0]))
    && LinkedAlong(nl, list)
  }

  /** Links inside the list point to its neighbours. */
  predicate LinkedAlong(nl: Netlist, list: seq<nat>)
    requires forall i :: 0 <= i < |list| ==> list[i] < |nl.links|
  {
    && (forall i :: 0 <= i < |list| ==> nl.links[list[i]].previous == At(list, i - 1))
    && (forall i :: 0 <= i < |list| - 1 ==> nl.links[list[i]].next == Some(list[i + 1]))
  }

  /** Where the path goes next. */
  function Cursor(nl: Netlist, net: nat, list: seq<nat>): Option<nat>
    requires nl.Aligned() && net < |nl.live| && Path(nl, net, list)
  {
    if list == [] then nl.netPins[net].head else nl.links[list[|list| - 1]].next
  }

  /** A complete list ends where the net's tail says. */
  predicate Walk(nl: Netlist, net: nat, list: seq<nat>)
    requires nl.Aligned() && net < |nl.live|
  {
    Path(nl, net, list) && Cursor(nl, net, list) == None && nl.netPins[net].tail == At(list, |list| - 1)
  }

  predicate Covers(nl: Netlist, net: nat, list: seq<nat>) {
    forall p :: 0 <= p < |nl.connections| && nl.Attached(net, p) ==> p in list
  }

  /** Followed from its head, the list of a live net visits precisely the pins of
      live cells connected to it, once each. */
  ghost predicate TrueList(nl: Netlist, net: nat)
    requires nl.Aligned() && net < |nl.live|
  {
    exists list :: Walk(nl, net, list) && Covers(nl, net, list)
  }

  predicate OwnersMatch(nl: Netlist)
    requires nl.Aligned()
  {
    && (forall c :: 0 <= c < |nl.cells| ==> nl.cells[c].end <= |nl.connections|)
    && (forall c, p :: 0 <= c < |nl.cells| && nl.cells[c].start <= p < nl.cells[c].end && p < |nl.owners| ==>
        nl.owners[p] == c)
    && (forall p :: 0 <= p < |nl.owners| ==>
          nl.owners[p] < |nl.cells| && nl.cells[nl.owners[p]].start <= p < nl.cells[nl.owners[p]].end)
  }

  /** The pin has a place in some list. */
  predicate MustBeLinked(nl: Netlist, p: nat)
    requires nl.Aligned() && p < |nl.owners| && nl.owners[p] < |nl.cells|
  {
    nl.cells[nl.owners[p]].live && nl.connections[p].Net?
  }

  ghost predicate Sound(nl: Netlist) {
    && nl.Aligned()
    && (forall n :: 0 <= n < |nl.live| && !nl.live[n] ==> nl.netPins[n] == NO_PINS)
    && (forall n :: 0 <= n < |nl.live| && nl.live[n] ==> TrueList(nl, n))
    && OwnersMatch(nl)
    && (forall p :: 0 <= p < |nl.owners| ==>
          if MustBeLinked(nl, p) then nl.connections[p].net < |nl.live| && nl.live[nl.connections[p].net]
          else nl.links[p] == NO_LINKS)
  }

  // ----- paths are deterministic -----

  lemma {:induction false} SameStep(nl: Netlist, net: nat, a: seq<nat>, b: seq<nat>, k: nat)
    requires nl.Aligned() && net < |nl.live| && Path(nl, net, a) && Path(nl, net, b) && k < |a| && k < |b|
    ensures a[k] == b[k]
    decreases k
  {
    if k > 0 {
      SameStep(nl, net, a, b, k - 1);
      assert nl.links[a[k - 1]].next == Some(a[k - 1 + 1]);
      assert nl.links[b[k - 1]].next == Some(b[k - 1 + 1]);
    }
  }

  lemma PathIsPrefix(nl: Netlist, net: nat, path: seq<nat>, list: seq<nat>)
    requires nl.Aligned() && net < |nl.live| && Path(nl, net, path) && Walk(nl, net, list)
    ensures path <= list
  {
    hide Path, Cursor;
    forall k | 0 <= k < |path| && k < |list| ensures path[k] == list[k] {
      SameStep(nl, net, path, list, k);
    }
    if list < path { NextIsForced(nl, net, list, path); }
  }

  lemma WalkIsUnique(nl: Netlist, net: nat, a: seq<nat>, b: seq<nat>)
    requires nl.Aligned() && net < |nl.live| && Walk(nl, net, a) && Walk(nl, net, b)
    ensures a == b
  {
    PathIsPrefix(nl, net, a, b);
    PathIsPrefix(nl, net, b, a);
  }

  // ----- the validator -----

  /** Walks one net, marking its pins; fails exactly when the net has no walk. */
  method WalkNet(nl: Netlist, net: nat, seen: array<bool>) returns (ok: bool, ghost list: seq<nat>)
    requires nl.Aligned() && net < |nl.live| && seen.Length == |nl.connections|
    requires forall p :: 0 <= p < seen.Length && nl.connections[p] == Net(net) ==> !seen[p]
    modifies seen
    ensures ok ==> Walk(nl, net, list)
    ensures ok ==> forall p :: 0 <= p < seen.Length ==> (seen[p] <==> old(seen[p]) || p in list)
    ensures !ok ==> forall l :: !Walk(nl, net, l)
  {
    hide Path, Cursor;
    list := [];
    PathStart(nl, net);
    var previous: Option<nat> := None;
    var current := nl.netPins[net].head;
    var count := 0;
    while current.Some?
      invariant Path(nl, net, list) && current == Cursor(nl, net, list)
      invariant count == |list| && previous == At(list, |list| - 1)
      invariant forall p :: 0 <= p < seen.Length ==> (seen[p] <==> old(seen[p]) || p in list)
      invariant |list| <= |nl.connections|
      decreases |nl.connections| - count
    {
      var pin := current.value;
      count := count + 1;
      var bad := count > |nl.connections|;
      if !bad { bad := pin >= |nl.connections|; }
      if !bad {
        bad := nl.connections[pin] != Net(net) || nl.PinOwner(pin).None? || seen[pin]
            || nl.links[pin].previous != previous;
      }
      if bad {
        ghost var path := list;
        forall l ensures !Walk(nl, net, l) {
          if Walk(nl, net, l) { StepIsForced(nl, net, path, l, pin); }
        }
        ok := false;
        return;
      }
      PathStep(nl, net, list, pin);
      seen[pin] := true;
      list := list + [pin];
      previous := Some(pin);
      current := nl.links[pin].next;
    }
    ok := previous == nl.netPins[net].tail;
    if !ok {
      ghost var path := list;
      forall l ensures !Walk(nl, net, l) {
        if Walk(nl, net, l) {
          PathIsPrefix(nl, net, path, l);
          EndIsForced(nl, net, path, l);
        }
      }
    }
  }

  lemma PathStart(nl: Netlist, net: nat)
    requires nl.Aligned() && net < |nl.live|
    ensures Path(nl, net, []) && Cursor(nl, net, []) == nl.netPins[net].head
  {
  }

  lemma PathStep(nl: Netlist, net: nat, list: seq<nat>, pin: nat)
    requires nl.Aligned() && net < |nl.live| && Path(nl, net, list) && Cursor(nl, net, list) == Some(pin)
    requires nl.Attached(net, pin) && pin !in list && nl.links[pin].previous == At(list, |list| - 1)
    ensures Path(nl, net, list + [pin]) && Cursor(nl, net, list + [pin]) == nl.links[pin].next
    ensures |list + [pin]| <= |nl.connections|
  {
    hide LinkedAlong;
    var list' := list + [pin];
    LinksStep(nl, list, pin);
    assert Path(nl, net, list');
    DistinctIsBounded(list', |nl.connections|);
  }

  /** The links inside a list stay right when a pin that follows its last one is appended. */
  lemma LinksStep(nl: Netlist, list: seq<nat>, pin: nat)
    requires (forall i :: 0 <= i < |list| ==> list[i] < |nl.links|) && pin < |nl.links|
    requires LinkedAlong(nl, list) && nl.links[pin].previous == At(list, |list| - 1)
    requires list != [] ==> nl.links[list[|list| - 1]].next == Some(pin)
    ensures LinkedAlong(nl, list + [pin])
  {
    var list', n := list + [pin], |list|;
    forall i | 0 <= i <= n ensures nl.links[list'[i]].previous == At(list', i - 1) {
      if i < n {
        assert nl.links[list[i]].previous == At(list, i - 1);
        assert list'[i] == list[i] && At(list', i - 1) == At(list, i - 1);
      }
    }
    forall i | 0 <= i < n ensures nl.links[list'[i]].next == Some(list'[i + 1]) {
      if i < n - 1 { assert nl.links[list[i]].next == Some(list[i + 1]); }
    }
  }

  /** If the net has a walk, the next pin on a partial path passes every test. */
  lemma StepIsForced(nl: Netlist, net: nat, path: seq<nat>, list: seq<nat>, pin: nat)
    requires nl.Aligned() && net < |nl.live| && Path(nl, net, path) && Walk(nl, net, list)
    requires Cursor(nl, net, path) == Some(pin)
    ensures |path| < |nl.connections| && nl.Attached(net, pin) && pin !in path
    ensures nl.links[pin].previous == At(path, |path| - 1)
  {
    PathIsPrefix(nl, net, path, list);
    EndIsForced(nl, net, path, list);
    NextIsForced(nl, net, path, list);
    DistinctIsBounded(list, |nl.connections|);
  }

  lemma NextIsForced(nl: Netlist, net: nat, path: seq<nat>, list: seq<nat>)
    requires nl.Aligned() && net < |nl.live| && Path(nl, net, path) && Path(nl, net, list) && path < list
    ensures Cursor(nl, net, path) == Some(list[|path|])
  {
    var n := |path| - 1;
    if path != [] {
      assert list[n] == path[n];
      assert nl.links[list[n]].next == Some(list[n + 1]);
    }
  }

  lemma EndIsForced(nl: Netlist, net: nat, path: seq<nat>, list: seq<nat>)
    requires nl.Aligned() && net < |nl.live| && Path(nl, net, path) && Walk(nl, net, list) && path <= list
    ensures Cursor(nl, net, path) == None <==> path == list
  {
    if path != list { NextIsForced(nl, net, path, list); }
  }

  predicate CellOk(nl: Netlist, seen: seq<bool>, c: nat)
    requires nl.Aligned() && |seen| == |nl.connections| && c < |nl.cells|
  {
    var cell := nl.cells[c];
    cell.end <= |nl.connections| &&
    forall p :: cell.start <= p < cell.end ==> PinOk(nl, seen, c, p)
  }

  predicate PinOk(nl: Netlist, seen: seq<bool>, c: nat, p: nat)
    requires nl.Aligned() && |seen| == |nl.connections| && c < |nl.cells| && p < |nl.connections|
  {
    var linked := nl.cells[c].live && nl.connections[p].Net?;
    nl.owners[p] == c && seen[p] == linked && (!linked ==> nl.links[p] == NO_LINKS)
  }

  method CheckCells(nl: Netlist, seen: array<bool>) returns (ok: bool)
    requires nl.Aligned() && seen.Length == |nl.connections|
    ensures ok <==> forall c :: 0 <= c < |nl.cells| ==> CellOk(nl, seen[..], c)
  {
    for c := 0 to |nl.cells|
      invariant forall d :: 0 <= d < c ==> CellOk(nl, seen[..], d)
    {
      var cell := nl.cells[c];
      if cell.end > |nl.connections| {
        assert !CellOk(nl, seen[..], c);
        return false;
      }
      var p := cell.start;
      while p < cell.end
        invariant cell.start <= p && forall q :: cell.start <= q < p && q < cell.end ==> PinOk(nl, seen[..], c, q)
      {
        var linked := cell.live && nl.connections[p].Net?;
        if nl.owners[p] != c || seen[p] != linked || (!linked && nl.links[p] != NO_LINKS) {
          assert !PinOk(nl, seen[..], c, p);
          assert !CellOk(nl, seen[..], c);
          return false;
        }
        p := p + 1;
      }
    }
    ok := true;
  }

  predicate OwnerOk(nl: Netlist, p: nat)
    requires nl.Aligned() && p < |nl.owners|
  {
    nl.owners[p] < |nl.cells| && nl.cells[nl.owners[p]].start <= p < nl.cells[nl.owners[p]].end
  }

  method CheckOwners(nl: Netlist) returns (ok: bool)
    requires nl.Aligned()
    ensures ok <==> forall p :: 0 <= p < |nl.owners| ==> OwnerOk(nl, p)
  {
    for p := 0 to |nl.owners|
      invariant forall q :: 0 <= q < p ==> OwnerOk(nl, q)
    {
      if !OwnerOk(nl, p) { return false; }
    }
    ok := true;
  }

  /** After all nets have been walked: marked pins are exactly the listed ones. */
  ghost predicate Marked(nl: Netlist, seen: seq<bool>, lists: seq<seq<nat>>, k: nat)
    requires nl.Aligned() && k <= |nl.live|
  {
    && |seen| == |nl.connections| && |lists| == k
    && (forall n :: 0 <= n < k && nl.live[n] ==> Walk(nl, n, lists[n]))
    && (forall n :: 0 <= n < k && !nl.live[n] ==> nl.netPins[n] == NO_PINS && lists[n] == [])
    && (forall p :: 0 <= p < |seen| ==>
          (seen[p] <==> nl.connections[p].Net? && nl.connections[p].net < k && p in lists[nl.connections[p].net]))
  }

  lemma MarkedStep(nl: Netlist, seen: seq<bool>, seen': seq<bool>, lists: seq<seq<nat>>, k: nat, list: seq<nat>)
    requires nl.Aligned() && k < |nl.live| && Marked(nl, seen, lists, k) && |seen'| == |seen|
    requires if nl.live[k] then Walk(nl, k, list) else nl.netPins[k] == NO_PINS && list == []
    requires forall p :: 0 <= p < |seen| ==> (seen'[p] <==> seen[p] || p in list)
    ensures Marked(nl, seen', lists + [list], k + 1)
  {
    hide Walk;
    if nl.live[k] { WalkPins(nl, k, list); }
  }

  lemma WalkPins(nl: Netlist, net: nat, list: seq<nat>)
    requires nl.Aligned() && net < |nl.live| && Walk(nl, net, list)
    ensures forall p :: p in list ==> nl.Attached(net, p)
  {
    hide Cursor;
    forall p | p in list ensures nl.Attached(net, p) {
      var i :| 0 <= i < |list| && list[i] == p;
    }
  }

  /** The list of a live net, from the walk that found it. */
  lemma ListedIsAttached(nl: Netlist, seen: seq<bool>, lists: seq<seq<nat>>, p: nat)
    requires nl.Aligned() && Marked(nl, seen, lists, |nl.live|) && p < |seen|
    ensures seen[p] ==>
              && nl.connections[p].net < |nl.live| && nl.live[nl.connections[p].net]
              && nl.Attached(nl.connections[p].net, p)
  {
    hide Walk;
    if seen[p] {
      var n := nl.connections[p].net;
      assert nl.live[n];
      WalkPins(nl, n, lists[n]);
    }
  }

  lemma AcceptedIsSound(nl: Netlist, seen: seq<bool>, lists: seq<seq<nat>>)
    requires nl.Aligned() && Marked(nl, seen, lists, |nl.live|)
    requires forall c :: 0 <= c < |nl.cells| ==> CellOk(nl, seen, c)
    requires forall p :: 0 <= p < |nl.owners| ==> OwnerOk(nl, p)
    ensures Sound(nl)
  {
    hide Path, Cursor;
    forall p | 0 <= p < |nl.owners| ensures nl.owners[p] < |nl.cells| && PinOk(nl, seen, nl.owners[p], p) {
      assert OwnerOk(nl, p) && CellOk(nl, seen, nl.owners[p]);
    }
    forall c, p | 0 <= c < |nl.cells| && nl.cells[c].start <= p < nl.cells[c].end && p < |nl.owners|
        ensures nl.owners[p] == c {
      assert CellOk(nl, seen, c) && PinOk(nl, seen, c, p);
    }
    assert OwnersMatch(nl) by {
      forall c | 0 <= c < |nl.cells| ensures nl.cells[c].end <= |nl.connections| { assert CellOk(nl, seen, c); }
      forall p | 0 <= p < |nl.owners| ensures nl.owners[p] < |nl.cells|
          && nl.cells[nl.owners[p]].start <= p < nl.cells[nl.owners[p]].end {
        assert OwnerOk(nl, p);
      }
    }
    forall n | 0 <= n < |nl.live| && nl.live[n] ensures TrueList(nl, n) {
      forall p | 0 <= p < |nl.connections| && nl.Attached(n, p) ensures p in lists[n] {
        assert PinOk(nl, seen, nl.owners[p], p);
      }
      assert Walk(nl, n, lists[n]) && Covers(nl, n, lists[n]);
    }
    forall p | 0 <= p < |nl.owners| && MustBeLinked(nl, p) ensures nl.connections[p].net < |nl.live|
        && nl.live[nl.connections[p].net] {
      assert PinOk(nl, seen, nl.owners[p], p);
      ListedIsAttached(nl, seen, lists, p);
    }
    forall p | 0 <= p < |nl.owners| && !MustBeLinked(nl, p) ensures nl.links[p] == NO_LINKS {
      assert PinOk(nl, seen, nl.owners[p], p);
    }
  }

  lemma SoundIsAccepted(nl: Netlist, seen: seq<bool>, lists: seq<seq<nat>>)
    requires Sound(nl) && Marked(nl, seen, lists, |nl.live|)
    ensures forall c :: 0 <= c < |nl.cells| ==> CellOk(nl, seen, c)
    ensures forall p :: 0 <= p < |nl.owners| ==> OwnerOk(nl, p)
  {
    hide Path, Cursor, TrueList;
    forall c, p | 0 <= c < |nl.cells| && nl.cells[c].start <= p < nl.cells[c].end ensures p < |nl.connections|
        && PinOk(nl, seen, c, p) {
      assert nl.owners[p] == c;
      ListedIsAttached(nl, seen, lists, p);
      if MustBeLinked(nl, p) {
        var n := nl.connections[p].net;
        assert nl.Attached(n, p);
        SoundListHas(nl, n, lists[n], p);
      }
    }
  }

  lemma SoundListHas(nl: Netlist, n: nat, list: seq<nat>, p: nat)
    requires nl.Aligned() && n < |nl.live| && TrueList(nl, n) && Walk(nl, n, list) && nl.Attached(n, p)
    ensures p in list
  {
    var l :| Walk(nl, n, l) && Covers(nl, n, l);
    WalkIsUnique(nl, n, l, list);
  }

  /** Accepts, with zeroed scratch, exactly the netlists whose pin lists are the
      true net-to-pin relation. */
  method ValidateConnectivity(nl: Netlist, seen: array<bool>) returns (ok: bool)
    requires seen.Length == |nl.connections| && forall p :: 0 <= p < seen.Length ==> !seen[p]
    modifies seen
    ensures ok <==> Sound(nl)
  {
    hide Walk, Path, Cursor, CellOk, OwnerOk, OwnersMatch, MustBeLinked, Netlist.PinOwner, Netlist.Owns;
    if |nl.connections| != |nl.owners| || |nl.connections| != |nl.links| || |nl.live| != |nl.netPins| { return false; }
    ghost var lists: seq<seq<nat>> := [];
    for n := 0 to |nl.live|
      invariant Marked(nl, seen[..], lists, n)
    {
      ghost var list := [];
      ghost var before := seen[..];
      if !nl.live[n] {
        if nl.netPins[n] != NO_PINS { return false; }
      } else {
        var walked;
        walked, list := WalkNet(nl, n, seen);
        if !walked {
          assert !TrueList(nl, n);
          return false;
        }
      }
      MarkedStep(nl, before, seen[..], lists, n, list);
      lists := lists + [list];
    }
    if Sound(nl) { SoundIsAccepted(nl, seen[..], lists); }
    var cellsOk := CheckCells(nl, seen);
    if !cellsOk { return false; }
    var ownersOk := CheckOwners(nl);
    if !ownersOk { return false; }
    AcceptedIsSound(nl, seen[..], lists);
    ok := true;
  }

  // ----- enumeration -----

  /** Follows the list of a net of an accepted netlist: it ends, and yields each
      attached pin exactly once. */
  method PinsOnNet(nl: Netlist, net: nat) returns (pins: Option<seq<nat>>)
    requires Sound(nl)
    ensures pins.Some? <==> net < |nl.live| && nl.live[net]
    ensures pins.Some? ==> Walk(nl, net, pins.value)
    ensures pins.Some? ==> Distinct(pins.value) && forall p :: p in pins.value <==> nl.Attached(net, p)
  {
    hide Path, Cursor, OwnersMatch, MustBeLinked, Netlist.PinOwner, Netlist.Owns;
    if net >= |nl.live| || !nl.live[net] { return None; }
    ghost var list :| Walk(nl, net, list) && Covers(nl, net, list);
    var visited: seq<nat> := [];
    var cursor := nl.netPins[net].head;
    PathStart(nl, net);
    while cursor.Some?
      invariant visited <= list && Path(nl, net, visited) && cursor == Cursor(nl, net, visited)
      decreases |list| - |visited|
    {
      var pin := cursor.value;
      EndIsForced(nl, net, visited, list);
      NextIsForced(nl, net, visited, list);
      StepIsForced(nl, net, visited, list, pin);
      PathStep(nl, net, visited, pin);
      visited := visited + [pin];
      cursor := nl.links[pin].next;
    }
    EndIsForced(nl, net, visited, list);
    WalkMembers(nl, net, list);
    pins := Some(visited);
  }

  lemma WalkMembers(nl: Netlist, net: nat, list: seq<nat>)
    requires nl.Aligned() && net < |nl.live| && Walk(nl, net, list) && Covers(nl, net, list)
    ensures Distinct(list) && forall p :: p in list <==> nl.Attached(net, p)
  {
    WalkPins(nl, net, list);
  }

  // ----- appended ranges -----

  /** Consecutive ranges that start at zero and end at the arena's length. */
  predicate Tiles(ranges: seq<(nat, nat)>, arena: nat, nonempty: bool) {
    && (ranges == [] ==> arena == 0)
    && (ranges != [] ==> ranges[0].0 == 0 && ranges[|ranges| - 1].1 == arena)
    && (forall i :: 0 <= i < |ranges| ==> ranges[i].0 <= ranges[i].1 && (nonempty ==> ranges[i].0 < ranges[i].1))
    && (forall i :: 0 <= i < |ranges| - 1 ==> ranges[i].1 == ranges[i + 1].0)
  }

  lemma OneMoreRange(ranges: seq<(nat, nat)>, i: nat, expected: nat, nonempty: bool)
    requires i < |ranges| && expected == (if i == 0 then 0 else ranges[i - 1].1)
    requires i > 0 ==> Tiles(ranges[..i], expected, nonempty)
    requires ranges[i].0 == expected && ranges[i].0 <= ranges[i].1 && (nonempty ==> ranges[i].0 < ranges[i].1)
    ensures Tiles(ranges[..i + 1], ranges[i].1, nonempty)
  {
    var more := ranges[..i + 1];
    assert more == ranges[..i] + [ranges[i]];
    forall k | 0 <= k < |more| - 1 ensures more[k].1 == more[k + 1].0 {
      if k + 1 < i { assert ranges[..i][k].1 == ranges[..i][k + 1].0; }
    }
  }

  method ValidateAppendedRanges(ranges: seq<(nat, nat)>, arena: nat, nonempty: bool) returns (ok: bool)
    ensures ok <==> Tiles(ranges, arena, nonempty)
  {
    var expected := 0;
    for i := 0 to |ranges|
      invariant expected == if i == 0 then 0 else ranges[i - 1].1
      invariant i > 0 ==> Tiles(ranges[..i], expected, nonempty)
    {
      var (start, end) := ranges[i];
      if start != expected || end < start || (nonempty && end == start) {
        assert i > 0 ==> ranges[i - 1].1 == expected;
        return false;
      }
      OneMoreRange(ranges, i, expected, nonempty);
      expected := end;
    }
    assert ranges[..|ranges|] == ranges;
    ok := expected == arena;
  }

  /** Every arena position lies in exactly one of the ranges. */
  lemma {:induction false} TilesPartition(ranges: seq<(nat, nat)>, arena: nat, nonempty: bool, p: nat)
    requires Tiles(ranges, arena, nonempty) && p < arena
    ensures exists i :: 0 <= i < |ranges| && ranges[i].0 <= p < ranges[i].1
    ensures forall i, j :: 0 <= i < j < |ranges| ==> !(ranges[i].0 <= p < ranges[i].1 && ranges[j].0 <= p < ranges[j].1)
    decreases |ranges|
  {
    var n := |ranges| - 1;
    if n > 0 && p < ranges[n].0 {
      TilesPartition(ranges[..n], ranges[n - 1].1, nonempty, p);
      var i :| 0 <= i < n && ranges[..n][i].0 <= p < ranges[..n][i].1;
      assert ranges[i].0 <= p < ranges[i].1;
    } else {
      assert ranges[n].0 <= p < ranges[n].1;
    }
    forall i, j | 0 <= i < j < |ranges| ensures !(ranges[i].0 <= p < ranges[i].1 && ranges[j].0 <= p < ranges[j].1) {
      RangesAscend(ranges, arena, nonempty, i, j);
    }
  }

  lemma {:induction false} RangesAscend(ranges: seq<(nat, nat)>, arena: nat, nonempty: bool, i: nat, j: nat)
    requires Tiles(ranges, arena, nonempty) && i < j < |ranges|
    ensures ranges[i].1 <= ranges[j].0
    decreases j - i
  {
    if i + 1 < j { RangesAscend(ranges, arena, nonempty, i + 1, j); }
  }
}
