/** The net count of a word-level module: signal bits joined by signal-to-signal connects. */
module NetCount {
  import opened Lists
  import opened DisjointSets

  datatype BitRange = BitRange(msb: nat, lsb: nat)
  datatype Target = Target(signal: nat, range: Option<BitRange>)
  datatype Value = Signal(signal: nat, lsb: nat, width: nat) | Computed
  datatype Connect = Connect(target: Target, value: nat)
  datatype Module = Module(widths: seq<nat>, values: seq<Value>, connects: seq<Connect>)

  // ----- numbering the bits -----

  function Offset(widths: seq<nat>, n: nat): nat
    requires n <= |widths|
  {
    if n == 0 then 0 else Offset(widths, n - 1) + widths[n - 1]
  }

  function Bits(m: Module): nat {
    Offset(m.widths, |m.widths|)
  }

  /** `index` numbers bit `bit` of signal `signal`. */
  predicate Numbers(m: Module, index: nat, signal: nat, bit: nat) {
    signal < |m.widths| && bit < m.widths[signal] && index == Offset(m.widths, signal) + bit
  }

  lemma {:induction false} OffsetMonotone(widths: seq<nat>, i: nat, j: nat)
    requires i <= j <= |widths|
    ensures Offset(widths, i) <= Offset(widths, j)
  {
    if i < j { OffsetMonotone(widths, i, j - 1); }
  }

  /** Every index numbers a bit. */
  lemma {:induction false} NumberedBit(m: Module, n: nat, index: nat) returns (signal: nat, bit: nat)
    requires n <= |m.widths| && index < Offset(m.widths, n)
    ensures Numbers(m, index, signal, bit)
  {
    if index >= Offset(m.widths, n - 1) {
      signal, bit := n - 1, index - Offset(m.widths, n - 1);
    } else {
      signal, bit := NumberedBit(m, n - 1, index);
    }
  }

  /** No index numbers two bits, and all of them are in range. */
  lemma NumberedOnce(m: Module, index: nat, s: nat, b: nat, s': nat, b': nat)
    requires Numbers(m, index, s, b) && Numbers(m, index, s', b')
    ensures s == s' && b == b' && index < Bits(m)
  {
    OffsetMonotone(m.widths, s + 1, |m.widths|);
    if s < s' { OffsetMonotone(m.widths, s + 1, s'); }
    if s' < s { OffsetMonotone(m.widths, s' + 1, s); }
  }

  method SignalOffsets(widths: seq<nat>) returns (offsets: seq<nat>)
    ensures |offsets| == |widths| + 1
    ensures forall i :: 0 <= i <= |widths| ==> offsets[i] == Offset(widths, i)
  {
    offsets := [0];
    for i := 0 to |widths|
      invariant |offsets| == i + 1
      invariant forall k :: 0 <= k <= i ==> offsets[k] == Offset(widths, k)
    {
      offsets := offsets + [offsets[i] + widths[i]];
    }
  }

  function SignalBitIndex(offsets: seq<nat>, signal: nat, bit: nat): Option<nat> {
    if signal + 1 >= |offsets| then None
    else if offsets[signal] + bit < offsets[signal + 1] then Some(offsets[signal] + bit)
    else None
  }

  lemma BitIndexNumbers(m: Module, offsets: seq<nat>, signal: nat, bit: nat)
    requires |offsets| == |m.widths| + 1
    requires forall i :: 0 <= i <= |m.widths| ==> offsets[i] == Offset(m.widths, i)
    ensures forall index :: SignalBitIndex(offsets, signal, bit) == Some(index) <==>
        index >= 0 && Numbers(m, index, signal, bit)
    ensures SignalBitIndex(offsets, signal, bit).Some? ==> SignalBitIndex(offsets, signal, bit).value < Bits(m)
  {
    if signal < |m.widths| {
      assert offsets[signal + 1] == offsets[signal] + m.widths[signal];
      OffsetMonotone(m.widths, signal + 1, |m.widths|);
    }
  }

  // ----- what a connect joins -----

  /** The selected bits of a target run from `lo` to `hi`: the bounds of its range in
      either order, or the whole signal. */
  predicate Selects(m: Module, target: Target, lo: nat, hi: nat) {
    match target.range
    case None => target.signal < |m.widths| && lo == 0 && hi + 1 == m.widths[target.signal]
    case Some(r) => lo <= hi && ((r.lsb == lo && r.msb == hi) || (r.msb == lo && r.lsb == hi))
  }

  /** Connect `c` reads a signal of the selected width, and bit `t` of its target
      lines up with bit `u` of that signal. */
  ghost predicate LinesUp(m: Module, c: nat, t: nat, u: nat) {
    && c < |m.connects| && m.connects[c].value < |m.values| && m.values[m.connects[c].value].Signal?
    && var connect := m.connects[c];
       var reference := m.values[connect.value];
       exists lo: nat, hi: nat ::
         && Selects(m, connect.target, lo, hi) && lo <= t <= hi
         && hi - lo + 1 == reference.width && t - lo == u - reference.lsb
  }

  /** Some connect joins the bits numbered `a` and `b`. */
  ghost predicate Joined(m: Module, a: nat, b: nat) {
    exists c: nat, t: nat, u: nat ::
      && LinesUp(m, c, t, u)
      && Numbers(m, a, m.connects[c].target.signal, t) && Numbers(m, b, m.values[m.connects[c].value].signal, u)
  }

  // ----- how the code walks a connect -----

  datatype Strip = Strip(target: nat, targetLsb: nat, source: nat, sourceLsb: nat, width: nat)

  /** A connect counts when it copies a signal slice of the same width. */
  function StripOf(m: Module, c: nat): Option<Strip>
    requires c < |m.connects|
  {
    var connect := m.connects[c];
    if connect.value >= |m.values| || m.values[connect.value].Computed? then None
    else if connect.target.signal >= |m.widths| then None
    else
      var reference := m.values[connect.value];
      var lsb := match connect.target.range
        case None => 0
        case Some(r) => if r.msb < r.lsb then r.msb else r.lsb;
      var width := match connect.target.range
        case None => m.widths[connect.target.signal]
        case Some(r) => (if r.msb < r.lsb then r.lsb - r.msb else r.msb - r.lsb) + 1;
      if width != reference.width then None
      else Some(Strip(connect.target.signal, lsb, reference.signal, reference.lsb, width))
  }

  /** Connect `c` joins the bits numbered `a` and `b` at offset `k` of its slices. */
  predicate Joins(m: Module, c: nat, k: nat, a: nat, b: nat) {
    && c < |m.connects| && StripOf(m, c).Some?
    && var s := StripOf(m, c).value;
       k < s.width && Numbers(m, a, s.target, s.targetLsb + k) && Numbers(m, b, s.source, s.sourceLsb + k)
  }

  /** The slices of a connect run over exactly the bits that line up and exist. */
  lemma StripLinesUp(m: Module, c: nat, t: nat, u: nat)
    requires c < |m.connects|
    ensures StripOf(m, c).Some? ==>
              && m.connects[c].value < |m.values| && m.values[m.connects[c].value].Signal?
              && StripOf(m, c).value.target == m.connects[c].target.signal
              && StripOf(m, c).value.source == m.values[m.connects[c].value].signal
    ensures (exists k: nat :: StripAt(m, c, k, t, u)) <==>
        LinesUp(m, c, t, u) && m.connects[c].target.signal < |m.widths|
  {
    var connect := m.connects[c];
    if LinesUp(m, c, t, u) && connect.target.signal < |m.widths| {
      var reference := m.values[connect.value];
      var lo: nat, hi: nat :|
        && Selects(m, connect.target, lo, hi) && lo <= t <= hi
        && hi - lo + 1 == reference.width && t - lo == u - reference.lsb;
      assert StripAt(m, c, t - lo, t, u);
    }
    if k: nat :| StripAt(m, c, k, t, u) {
      var s := StripOf(m, c).value;
      assert Selects(m, connect.target, s.targetLsb, s.targetLsb + s.width - 1);
    }
  }

  /** Offset `k` of the slices of connect `c` is target bit `t` and source bit `u`. */
  predicate StripAt(m: Module, c: nat, k: nat, t: nat, u: nat) {
    && c < |m.connects| && StripOf(m, c).Some?
    && k < StripOf(m, c).value.width && t == StripOf(m, c).value.targetLsb + k && u == StripOf(m, c).value.sourceLsb + k
  }

  lemma JoinsMeaning(m: Module, a: nat, b: nat)
    ensures Joined(m, a, b) <==> exists c: nat, k: nat :: Joins(m, c, k, a, b)
  {
    if Joined(m, a, b) {
      var c: nat, t: nat, u: nat :|
        && LinesUp(m, c, t, u)
        && Numbers(m, a, m.connects[c].target.signal, t) && Numbers(m, b, m.values[m.connects[c].value].signal, u);
      StripLinesUp(m, c, t, u);
      var k: nat :| StripAt(m, c, k, t, u);
      assert Joins(m, c, k, a, b);
    }
    if c: nat, k: nat :| Joins(m, c, k, a, b) {
      var s := StripOf(m, c).value;
      assert StripAt(m, c, k, s.targetLsb + k, s.sourceLsb + k);
      StripLinesUp(m, c, s.targetLsb + k, s.sourceLsb + k);
    }
  }

  ghost predicate JoinedBefore(m: Module, c: nat, k: nat, a: nat, b: nat) {
    (exists c': nat, k': nat :: c' < c && Joins(m, c', k', a, b)) || (exists k': nat :: k' < k && Joins(m, c, k', a, b))
  }

  /** `edges` holds exactly the joins of connects before `c`, and of `c` before offset `k`. */
  ghost predicate Collected(m: Module, c: nat, k: nat, edges: set<(nat, nat)>) {
    forall a: nat, b: nat {:trigger (a, b) in edges} {:trigger JoinedBefore(m, c, k, a, b)} ::
      (a, b) in edges <==> JoinedBefore(m, c, k, a, b)
  }

  lemma CollectBit(m: Module, c: nat, k: nat, edges: set<(nat, nat)>, more: set<(nat, nat)>)
    requires Collected(m, c, k, edges)
    requires forall a: nat, b: nat {:trigger (a, b) in more} {:trigger Joins(m, c, k, a, b)} ::
               (a, b) in more <==> Joins(m, c, k, a, b)
    ensures Collected(m, c, k + 1, edges + more)
  {
    hide Joins;
    var all, next := edges + more, k + 1;
    forall a: nat, b: nat ensures (a, b) in all <==> JoinedBefore(m, c, next, a, b) {
      assert (a, b) in edges <==> JoinedBefore(m, c, k, a, b);
    }
  }

  lemma CollectConnect(m: Module, c: nat, k: nat, edges: set<(nat, nat)>)
    requires Collected(m, c, k, edges)
    requires c < |m.connects| && (StripOf(m, c).None? || k == StripOf(m, c).value.width)
    ensures Collected(m, c + 1, 0, edges)
  {
    var next, zero := c + 1, 0;
    forall a: nat, b: nat ensures (a, b) in edges <==> JoinedBefore(m, next, zero, a, b) {
      assert (a, b) in edges <==> JoinedBefore(m, c, k, a, b);
      assert forall k': nat :: Joins(m, c, k', a, b) ==> k' < k;
      assert JoinedBefore(m, c, k, a, b) <==> JoinedBefore(m, next, zero, a, b);
    }
  }

  /** All pairs of bits that some connect joins. */
  ghost function JoinedPairs(m: Module): set<(nat, nat)> {
    set a: nat, b: nat | a in Upto(Bits(m)) && b in Upto(Bits(m)) && Joined(m, a, b) :: (a, b)
  }

  lemma JoinedInRange(m: Module, a: nat, b: nat)
    requires Joined(m, a, b)
    ensures a < Bits(m) && b < Bits(m)
  {
    var c: nat, t: nat, u: nat :|
      && LinesUp(m, c, t, u)
      && Numbers(m, a, m.connects[c].target.signal, t) && Numbers(m, b, m.values[m.connects[c].value].signal, u);
    NumberedOnce(m, a, m.connects[c].target.signal, t, m.connects[c].target.signal, t);
    NumberedOnce(m, b, m.values[m.connects[c].value].signal, u, m.values[m.connects[c].value].signal, u);
  }

  lemma JoinedAtLast(m: Module, a: nat, b: nat)
    ensures JoinedBefore(m, |m.connects|, 0, a, b) <==> exists c: nat, k: nat :: Joins(m, c, k, a, b)
  {
    hide StripOf;
  }

  lemma CollectedAll(m: Module, edges: set<(nat, nat)>)
    requires Collected(m, |m.connects|, 0, edges)
    ensures edges == JoinedPairs(m)
  {
    forall a: nat, b: nat ensures (a, b) in edges <==> (a, b) in JoinedPairs(m) {
      assert (a, b) in edges <==> JoinedBefore(m, |m.connects|, 0, a, b);
      JoinsMeaning(m, a, b);
      JoinedAtLast(m, a, b);
      if Joined(m, a, b) { JoinedInRange(m, a, b); }
    }
    forall e: (nat, nat) ensures e in edges <==> e in JoinedPairs(m) {
      assert e == (e.0, e.1);
    }
  }

  /** The nets of a module: the classes of the least equivalence that relates all joined bits. */
  ghost function Nets(m: Module): set<set<nat>> {
    Classes(JoinedPairs(m), Bits(m), Upto(Bits(m)))
  }

  // ----- the count -----

  /** Joins the bits of one connect. */
  method JoinStrip(m: Module, c: nat, s: Strip, offsets: seq<nat>, parent: array<nat>, ghost rank: seq<nat>,
                   ghost edges: set<(nat, nat)>)
    returns (ghost rank': seq<nat>, ghost edges': set<(nat, nat)>)
    requires c < |m.connects| && StripOf(m, c) == Some(s) && Collected(m, c, 0, edges)
    requires |offsets| == |m.widths| + 1 && forall i :: 0 <= i <= |m.widths| ==> offsets[i] == Offset(m.widths, i)
    requires parent.Length == Bits(m) && Tracks(parent[..], rank, edges)
    modifies parent
    ensures Tracks(parent[..], rank', edges') && Collected(m, c, s.width, edges')
  {
    hide Tracks, Collected, Offset;
    rank', edges' := rank, edges;
    for k := 0 to s.width
      invariant Tracks(parent[..], rank', edges') && Collected(m, c, k, edges')
    {
      var target := SignalBitIndex(offsets, s.target, s.targetLsb + k);
      var source := SignalBitIndex(offsets, s.source, s.sourceLsb + k);
      BitIndexNumbers(m, offsets, s.target, s.targetLsb + k);
      BitIndexNumbers(m, offsets, s.source, s.sourceLsb + k);
      ghost var more: set<(nat, nat)> := {};
      if target.Some? && source.Some? {
        rank' := UnionRoots(parent, target.value, source.value, rank', edges');
        more := {(target.value, source.value)};
      }
      JoinsAt(m, c, s, k, offsets, more);
      CollectBit(m, c, k, edges', more);
      assert edges' + {} == edges';
      edges' := edges' + more;
    }
  }

  lemma JoinsAt(m: Module, c: nat, s: Strip, k: nat, offsets: seq<nat>, more: set<(nat, nat)>)
    requires c < |m.connects| && StripOf(m, c) == Some(s) && k < s.width
    requires |offsets| == |m.widths| + 1 && forall i :: 0 <= i <= |m.widths| ==> offsets[i] == Offset(m.widths, i)
    requires var t, b := SignalBitIndex(offsets, s.target, s.targetLsb + k),
        SignalBitIndex(offsets, s.source, s.sourceLsb + k);
             more == if t.Some? && b.Some? then {(t.value, b.value)} else {}
    ensures forall a: nat, b: nat {:trigger (a, b) in more} {:trigger Joins(m, c, k, a, b)} ::
              (a, b) in more <==> Joins(m, c, k, a, b)
  {
    BitIndexNumbers(m, offsets, s.target, s.targetLsb + k);
    BitIndexNumbers(m, offsets, s.source, s.sourceLsb + k);
    forall a: nat, b: nat ensures (a, b) in more <==> Joins(m, c, k, a, b) {
      assert SignalBitIndex(offsets, s.target, s.targetLsb + k) == Some(a) <==>
          Numbers(m, a, s.target, s.targetLsb + k);
      assert SignalBitIndex(offsets, s.source, s.sourceLsb + k) == Some(b) <==>
          Numbers(m, b, s.source, s.sourceLsb + k);
    }
  }

  method ReportNetCount(m: Module) returns (count: nat)
    ensures count == |Nets(m)|
  {
    hide Tracks, Collected, Offset, Classes, StripOf, JoinedPairs;
    var offsets := SignalOffsets(m.widths);
    var total := offsets[|m.widths|];
    var parent := new nat[total](i => i);
    ghost var rank: seq<nat> := seq(total, _ => 0);
    ghost var edges: set<(nat, nat)> := {};
    FreshTracks(parent[..], rank);
    NothingCollected(m);
    for c := 0 to |m.connects|
      invariant Tracks(parent[..], rank, edges) && Collected(m, c, 0, edges)
    {
      var strip := StripOf(m, c);
      if strip.Some? {
        rank, edges := JoinStrip(m, c, strip.value, offsets, parent, rank, edges);
        CollectConnect(m, c, strip.value.width, edges);
      } else {
        CollectConnect(m, c, 0, edges);
      }
    }
    CollectedAll(m, edges);
    count := CountRoots(parent, rank, edges);
  }

  lemma NothingCollected(m: Module)
    ensures Collected(m, 0, 0, {})
  {
    assert forall a: nat, b: nat :: !JoinedBefore(m, 0, 0, a, b);
  }

  ghost predicate OnSomeNet(m: Module, i: nat) {
    exists net :: net in Nets(m) && i in net
  }

  /** Nets are non-empty and disjoint, every bit is on one, and two bits share a
      net exactly when a chain of connects leads from one to the other. */
  lemma NetsPartition(m: Module, net: set<nat>, other: set<nat>)
    requires net in Nets(m) && other in Nets(m)
    ensures net != {} && (net == other || net !! other)
    ensures forall i :: 0 <= i < Bits(m) ==> OnSomeNet(m, i)
    ensures forall i, j :: i in net && 0 <= j < Bits(m) ==> (j in net <==> Connected(JoinedPairs(m), i, j))
  {
    hide Connected, JoinedPairs;
    var edges, n := JoinedPairs(m), Bits(m);
    forall i | 0 <= i < n ensures OnSomeNet(m, i) {
      ConnectedReflexive(edges, i);
      assert Class(edges, n, i) in Nets(m);
    }
    var a :| a in Upto(n) && net == Class(edges, n, a);
    var b :| b in Upto(n) && other == Class(edges, n, b);
    ConnectedReflexive(edges, a);
    forall i, j | i in net && 0 <= j < n ensures j in net <==> Connected(edges, i, j) { SameNet(edges, n, a, i, j); }
    if c :| c in net && c in other {
      forall i: nat | i < n ensures i in net <==> i in other {
        SameNet(edges, n, a, c, i);
        SameNet(edges, n, b, c, i);
      }
    }
  }

  lemma SameNet(edges: set<(nat, nat)>, n: nat, a: nat, i: nat, j: nat)
    requires i in Class(edges, n, a) && j < n
    ensures j in Class(edges, n, a) <==> Connected(edges, i, j)
  {
    hide Connected;
    ConnectedSymmetric(edges, a, i);
    if Connected(edges, a, j) { ConnectedTransitive(edges, i, a, j); }
    if Connected(edges, i, j) { ConnectedTransitive(edges, a, i, j); }
  }
}
