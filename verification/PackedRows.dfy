/** Compressed rows: scattered `(row, value)` entries are counted, given
    destinations, and moved there by swapping along cycles, in place. */
module PackedRows {
  import opened Lists

  const MAX_U32: nat := 0xFFFF_FFFF

  datatype PackError = RowOutOfBounds(row: nat, rowCount: nat) | Capacity
  datatype Result<+T> = Success(value: T) | Failure(error: PackError)
  datatype Rows<T> = Rows(offsets: seq<nat>, values: seq<T>) {
    /** The row's slice of the values, or nothing outside the arena. */
    function Get(row: nat): Option<seq<T>> {
      if row + 1 < |offsets| && offsets[row] <= offsets[row + 1] <= |values|
      then Some(values[offsets[row]..offsets[row + 1]]) else None
    }
  }

  type Entry<T> = (nat, T)

  // ----- counting -----

  /** Entries of row `r` among the first `n`. */
  function Count<T>(entries: seq<Entry<T>>, r: nat, n: nat): (c: nat)
    requires n <= |entries|
    ensures c <= n
  {
    if n == 0 then 0 else Count(entries, r, n - 1) + if entries[n - 1].0 == r then 1 else 0
  }

  /** Entries of rows below `r` among the first `n`. */
  function Below<T>(entries: seq<Entry<T>>, r: nat, n: nat): (c: nat)
    requires n <= |entries|
    ensures c <= n
  {
    if n == 0 then 0 else Below(entries, r, n - 1) + if entries[n - 1].0 < r then 1 else 0
  }

  /** The values of row `r` among the first `n` entries, in input order. */
  function RowOf<T>(entries: seq<Entry<T>>, r: nat, n: nat): (s: seq<T>)
    requires n <= |entries|
    ensures |s| == Count(entries, r, n)
  {
    if n == 0 then [] else RowOf(entries, r, n - 1) + if entries[n - 1].0 == r then [entries[n - 1].1] else []
  }

  lemma {:induction false} BelowNext<T>(entries: seq<Entry<T>>, r: nat, n: nat)
    requires n <= |entries|
    ensures Below(entries, r + 1, n) == Below(entries, r, n) + Count(entries, r, n)
    ensures Below(entries, 0, n) == 0
  {
    if n > 0 { BelowNext(entries, r, n - 1); }
  }

  lemma {:induction false} BelowMonotone<T>(entries: seq<Entry<T>>, q: nat, r: nat, n: nat)
    requires n <= |entries| && q <= r
    ensures Below(entries, q, n) <= Below(entries, r, n)
  {
    if n > 0 { BelowMonotone(entries, q, r, n - 1); }
  }

  lemma {:induction false} BelowAll<T>(entries: seq<Entry<T>>, r: nat, n: nat)
    requires n <= |entries| && forall i :: 0 <= i < |entries| ==> entries[i].0 < r
    ensures Below(entries, r, n) == n
  {
    if n > 0 { BelowAll(entries, r, n - 1); }
  }

  lemma {:induction false} CountMonotone<T>(entries: seq<Entry<T>>, r: nat, m: nat, n: nat)
    requires m <= n <= |entries|
    ensures Count(entries, r, m) <= Count(entries, r, n)
    ensures m < n && entries[m].0 == r ==> Count(entries, r, m) < Count(entries, r, n)
    decreases n
  {
    if m < n {
      if m < n - 1 { CountMonotone(entries, r, m, n - 1); }
    }
  }

  lemma NothingCounted<T>(entries: seq<Entry<T>>)
    ensures forall r: nat :: Count(entries, r, 0) == 0
  {
  }

  lemma CountNext<T>(entries: seq<Entry<T>>, i: nat)
    requires i < |entries|
    ensures forall r: nat :: Count(entries, r, i + 1) == Count(entries, r, i) + if entries[i].0 == r then 1 else 0
  {
  }

  // ----- destinations -----

  /** Where entry `i` belongs: after all lower rows and after the earlier entries of its row. */
  function Dest<T>(entries: seq<Entry<T>>, i: nat): nat
    requires i < |entries|
  {
    Below(entries, entries[i].0, |entries|) + Count(entries, entries[i].0, i)
  }

  lemma DestInRow<T>(entries: seq<Entry<T>>, i: nat)
    requires i < |entries|
    ensures Dest(entries, i) < Below(entries, entries[i].0 + 1, |entries|) <= |entries|
  {
    BelowNext(entries, entries[i].0, |entries|);
    CountMonotone(entries, entries[i].0, i, |entries|);
  }

  lemma DestInjective<T>(entries: seq<Entry<T>>, i: nat, j: nat)
    requires i < j < |entries|
    ensures Dest(entries, i) != Dest(entries, j)
  {
    var n := |entries|;
    var q, r := entries[i].0, entries[j].0;
    DestInRow(entries, i);
    DestInRow(entries, j);
    if q < r {
      BelowMonotone(entries, q + 1, r, n);
    } else if r < q {
      BelowMonotone(entries, r + 1, q, n);
    } else {
      CountMonotone(entries, q, i, j);
    }
  }

  // ----- cycle swapping -----

  predicate Injective(d: seq<nat>) {
    forall i, j :: 0 <= i < j < |d| ==> d[i] != d[j]
  }

  predicate InRange(d: seq<nat>) {
    forall i :: 0 <= i < |d| ==> d[i] < |d|
  }

  function Swapped<T>(s: seq<T>, i: nat, j: nat): (t: seq<T>)
    requires i < |s| && j < |s|
    ensures |t| == |s|
  {
    s[i := s[j]][j := s[i]]
  }

  /** Positions below `n` whose element still has to move. */
  function Misplaced(d: seq<nat>, n: nat): nat
    requires n <= |d|
  {
    if n == 0 then 0 else Misplaced(d, n - 1) + if d[n - 1] != n - 1 then 1 else 0
  }

  lemma {:induction false} MisplacedFalls(d: seq<nat>, e: seq<nat>, n: nat, j: nat)
    requires n <= |d| == |e|
    requires forall k :: 0 <= k < n && e[k] != k ==> d[k] != k
    ensures Misplaced(e, n) <= Misplaced(d, n)
    ensures j < n && d[j] != j && e[j] == j ==> Misplaced(e, n) < Misplaced(d, n)
  {
    if n > 0 { MisplacedFalls(d, e, n - 1, j); }
  }

  /** A swap puts one more element in its place and disturbs none that is. */
  lemma SwapFixes(d: seq<nat>, i: nat)
    requires Injective(d) && InRange(d) && i < |d| && d[i] != i
    ensures var e := Swapped(d, i, d[i]);
            && Injective(e) && InRange(e)
            && Misplaced(e, |e|) < Misplaced(d, |d|)
            && (forall k :: 0 <= k < |d| && d[k] == k ==> e[k] == k)
  {
    var j := d[i];
    var e := Swapped(d, i, j);
    assert d[j] != d[i];
    assert forall k :: 0 <= k < |d| && k != i && k != j ==> e[k] == d[k];
    assert e[j] == j && e[i] == d[j];
    MisplacedFalls(d, e, |d|, j);
  }

  /** Which input entry sits at each position, and where each input entry sits. */
  ghost predicate Tracked<T>(input: seq<Entry<T>>, entries: seq<Entry<T>>, d: seq<nat>, at: seq<nat>, pos: seq<nat>) {
    && |entries| == |d| == |at| == |pos| == |input|
    && InRange(at) && InRange(pos)
    && (forall p :: 0 <= p < |at| ==> pos[at[p]] == p && entries[p] == input[at[p]] && d[p] == Dest(input, at[p]))
    && (forall i :: 0 <= i < |pos| ==> at[pos[i]] == i)
  }

  lemma TrackedInjective<T>(input: seq<Entry<T>>, entries: seq<Entry<T>>, d: seq<nat>, at: seq<nat>, pos: seq<nat>)
    requires Tracked(input, entries, d, at, pos)
    ensures Injective(d) && InRange(d)
    ensures |at| == |pos| == |d| && forall p :: 0 <= p < |d| ==> at[p] < |d| && d[p] < |d|
  {
    forall p | 0 <= p < |d| ensures d[p] < |d| { DestInRow(input, at[p]); }
    forall p, q | 0 <= p < q < |d| ensures d[p] != d[q] {
      assert pos[at[p]] != pos[at[q]];
      if at[p] < at[q] { DestInjective(input, at[p], at[q]); } else { DestInjective(input, at[q], at[p]); }
    }
  }

  lemma TrackedSwap<T>(input: seq<Entry<T>>, entries: seq<Entry<T>>, d: seq<nat>, at: seq<nat>, pos: seq<nat>, i: nat,
                       j: nat)
    requires Tracked(input, entries, d, at, pos) && i < |d| && j < |d| && i != j
    ensures Tracked(input, Swapped(entries, i, j), Swapped(d, i, j), Swapped(at, i, j), pos[at[i] := j][at[j] := i])
  {
    assert pos[at[i]] != pos[at[j]];
    var at' := Swapped(at, i, j);
    var pos' := pos[at[i] := j][at[j] := i];
    forall p | 0 <= p < |at| ensures at'[p] < |at| && pos'[at'[p]] == p {
      if p != i && p != j { assert pos[at[p]] == p; }
    }
    forall k | 0 <= k < |pos| ensures pos'[k] < |pos| && at'[pos'[k]] == k {
      assert at[pos[k]] == k;
    }
  }

  /** Moves every entry to its destination. */
  method Settle<T>(entries: array<Entry<T>>, destinations: array<nat>)
    requires entries.Length == destinations.Length
    requires forall i :: 0 <= i < entries.Length ==> destinations[i] == Dest(entries[..], i)
    modifies entries, destinations
    ensures forall i :: 0 <= i < entries.Length ==>
              Dest(old(entries[..]), i) < entries.Length && entries[Dest(old(entries[..]), i)] == old(entries[i])
  {
    hide Tracked, Misplaced, Dest, Injective, InRange;
    ghost var input := entries[..];
    ghost var at: seq<nat>, pos: seq<nat> := Indices(|input|), Indices(|input|);
    TrackedStart(input, destinations[..]);
    for index := 0 to entries.Length
      invariant Tracked(input, entries[..], destinations[..], at, pos)
      invariant forall p :: 0 <= p < index ==> destinations[p] == p
    {
      while destinations[index] != index
        invariant Tracked(input, entries[..], destinations[..], at, pos)
        invariant forall p :: 0 <= p < index ==> destinations[p] == p
        decreases Misplaced(destinations[..], destinations.Length)
      {
        var destination := destinations[index];
        ghost var e, d := entries[..], destinations[..];
        TrackedInjective(input, e, d, at, pos);
        SwapFixes(d, index);
        TrackedSwap(input, e, d, at, pos, index, destination);
        pos := pos[at[index] := destination][at[destination] := index];
        at := Swapped(at, index, destination);
        entries[index], entries[destination] := entries[destination], entries[index];
        destinations[index], destinations[destination] := destinations[destination], destinations[index];
        assert entries[..] == Swapped(e, index, destination);
        assert destinations[..] == Swapped(d, index, destination);
      }
    }
    forall i | 0 <= i < entries.Length
      ensures Dest(input, i) < entries.Length && entries[Dest(input, i)] == input[i]
    {
      TrackedEnd(input, entries[..], destinations[..], at, pos, i);
    }
  }

  lemma TrackedStart<T>(input: seq<Entry<T>>, d: seq<nat>)
    requires |d| == |input| && forall i :: 0 <= i < |d| ==> d[i] == Dest(input, i)
    ensures Tracked(input, input, d, Indices(|input|), Indices(|input|))
  {
  }

  lemma TrackedEnd<T>(input: seq<Entry<T>>, entries: seq<Entry<T>>, d: seq<nat>, at: seq<nat>, pos: seq<nat>, i: nat)
    requires Tracked(input, entries, d, at, pos) && i < |input| && forall p :: 0 <= p < |d| ==> d[p] == p
    ensures Dest(input, i) < |entries| && entries[Dest(input, i)] == input[i]
  {
    assert at[pos[i]] == i;
    assert d[pos[i]] == Dest(input, at[pos[i]]);
  }

  // ----- packing -----

  /** The first entry whose row lies outside the arena. */
  function FirstBad<T>(entries: seq<Entry<T>>, rowCount: nat): (bad: Option<nat>)
    ensures bad.None? <==> forall i :: 0 <= i < |entries| ==> entries[i].0 < rowCount
    ensures bad.Some? ==> exists i :: 0 <= i < |entries| && entries[i].0 == bad.value >= rowCount
                                      && forall j :: 0 <= j < i ==> entries[j].0 < rowCount
  {
    if entries == [] then None
    else if entries[0].0 >= rowCount then Some(entries[0].0)
    else
      var rest := FirstBad(entries[1..], rowCount);
      assert forall i :: 0 < i < |entries| ==> entries[i] == entries[1..][i - 1];
      assert rest.Some? ==> exists i :: 0 <= i < |entries[1..]| && entries[1..][i].0 == rest.value >= rowCount
                                      && (forall j :: 0 <= j < i ==> entries[1..][j].0 < rowCount)
                                      && entries[i + 1].0 == rest.value
                                          && (forall j :: 0 <= j < i + 1 ==> entries[j].0 < rowCount);
      rest
  }

  /** Row starts: the number of entries of lower rows. */
  method CountOffsets<T>(rowCount: nat, entries: seq<Entry<T>>) returns (offsets: array<nat>)
    requires forall i :: 0 <= i < |entries| ==> entries[i].0 < rowCount
    ensures fresh(offsets) && offsets.Length == rowCount + 1
    ensures forall r :: 0 <= r <= rowCount ==> offsets[r] == Below(entries, r, |entries|)
  {
    hide Below, Count;
    offsets := new nat[rowCount + 1](_ => 0);
    NothingCounted(entries);
    for i := 0 to |entries|
      invariant offsets[0] == 0
      invariant forall k :: 1 <= k <= rowCount ==> offsets[k] == Count(entries, k - 1, i)
    {
      var row := entries[i].0;
      CountNext(entries, i);
      offsets[row + 1] := offsets[row + 1] + 1;
    }
    BelowNext(entries, 0, |entries|);
    for row := 1 to rowCount + 1
      invariant forall r :: 0 <= r < row ==> offsets[r] == Below(entries, r, |entries|)
      invariant forall r :: row <= r <= rowCount ==> offsets[r] == Count(entries, r - 1, |entries|)
    {
      BelowNext(entries, row - 1, |entries|);
      offsets[row] := offsets[row] + offsets[row - 1];
    }
  }

  /** Gives each entry its destination with one cursor per row. */
  method Destinations<T>(rowCount: nat, entries: seq<Entry<T>>, offsets: array<nat>) returns (destinations: array<nat>)
    requires forall i :: 0 <= i < |entries| ==> entries[i].0 < rowCount
    requires offsets.Length == rowCount + 1 && forall r :: 0 <= r <= rowCount ==>
        offsets[r] == Below(entries, r, |entries|)
    ensures fresh(destinations) && destinations.Length == |entries|
    ensures forall i :: 0 <= i < |entries| ==> destinations[i] == Dest(entries, i)
  {
    hide Below, Count;
    NothingCounted(entries);
    var cursors := new nat[rowCount](r requires 0 <= r < rowCount reads offsets => offsets[r]);
    destinations := new nat[|entries|](_ => 0);
    for i := 0 to |entries|
      invariant forall r :: 0 <= r < rowCount ==> cursors[r] == Below(entries, r, |entries|) + Count(entries, r, i)
      invariant forall j :: 0 <= j < i ==> destinations[j] == Dest(entries, j)
    {
      var row := entries[i].0;
      CountNext(entries, i);
      destinations[i] := cursors[row];
      cursors[row] := cursors[row] + 1;
    }
  }

  /** Row starts ascend from zero to the number of entries. */
  lemma RowStarts<T>(entries: seq<Entry<T>>, rowCount: nat)
    requires forall i :: 0 <= i < |entries| ==> entries[i].0 < rowCount
    ensures Below(entries, 0, |entries|) == 0 && Below(entries, rowCount, |entries|) == |entries|
    ensures forall r: nat :: r < rowCount ==> Below(entries, r, |entries|) <= Below(entries, r + 1, |entries|)
  {
    hide Below, Count;
    BelowAll(entries, rowCount, |entries|);
    BelowNext(entries, 0, |entries|);
    forall r: nat | r < rowCount ensures Below(entries, r, |entries|) <= Below(entries, r + 1, |entries|) {
      BelowNext(entries, r, |entries|);
    }
  }

  /** Packs entries; every row keeps exactly its entries, in input order. */
  method TryFromEntries<T>(rowCount: nat, entries: seq<Entry<T>>) returns (result: Result<Rows<T>>)
    ensures result.Success? <==>
              rowCount <= MAX_U32 && |entries| <= MAX_U32 && forall i :: 0 <= i < |entries| ==> entries[i].0 < rowCount
    ensures result.Failure? && rowCount <= MAX_U32 && FirstBad(entries, rowCount).Some? ==>
              result.error == RowOutOfBounds(FirstBad(entries, rowCount).value, rowCount)
    ensures result.Failure? && (rowCount > MAX_U32 || FirstBad(entries, rowCount).None?) ==> result.error == Capacity
    ensures result.Success? ==>
              && |result.value.offsets| == rowCount + 1 && |result.value.values| == |entries|
              && result.value.offsets[0] == 0 && result.value.offsets[rowCount] == |entries|
              && (forall r :: 0 <= r < rowCount ==> result.value.offsets[r] <= result.value.offsets[r + 1])
              && (forall r :: 0 <= r < rowCount ==> result.value.Get(r) == Some(RowOf(entries, r, |entries|)))
              && (forall r :: r >= rowCount ==> result.value.Get(r).None?)
  {
    hide Below, Count, Dest;
    if rowCount > MAX_U32 { return Failure(Capacity); }
    match FirstBad(entries, rowCount) {
      case Some(row) => return Failure(RowOutOfBounds(row, rowCount));
      case None =>
    }
    if |entries| > MAX_U32 { return Failure(Capacity); }
    var offsets := CountOffsets(rowCount, entries);
    var destinations := Destinations(rowCount, entries, offsets);
    var moved := new Entry<T>[|entries|](i requires 0 <= i < |entries| => entries[i]);
    assert moved[..] == entries;
    Settle(moved, destinations);
    var values := Values(moved[..]);
    var packed := Rows(offsets[..], values);
    RowStarts(entries, rowCount);
    forall r | 0 <= r < rowCount ensures packed.Get(r) == Some(RowOf(entries, r, |entries|)) {
      PackedRow(entries, packed.values, rowCount, r);
    }
    result := Success(packed);
  }

  function Values<T>(entries: seq<Entry<T>>): (values: seq<T>)
    ensures |values| == |entries| && forall i :: 0 <= i < |entries| ==> values[i] == entries[i].1
  {
    seq(|entries|, i requires 0 <= i < |entries| => entries[i].1)
  }

  /** Values in place: each row's slice is its subsequence of the entries. */
  lemma PackedRow<T>(entries: seq<Entry<T>>, values: seq<T>, rowCount: nat, r: nat)
    requires |values| == |entries| && r < rowCount
    requires forall i :: 0 <= i < |entries| ==> Dest(entries, i) < |values| && values[Dest(entries, i)] == entries[i].1
    ensures var lo, hi := Below(entries, r, |entries|), Below(entries, r + 1, |entries|);
            lo <= hi <= |values| && values[lo..hi] == RowOf(entries, r, |entries|)
  {
    var lo := Below(entries, r, |entries|);
    BelowNext(entries, r, |entries|);
    RowInPlace(entries, values, r, |entries|);
  }

  lemma SliceNext<T>(values: seq<T>, lo: nat, k: nat)
    requires lo + k < |values|
    ensures values[lo..lo + k + 1] == values[lo..lo + k] + [values[lo + k]]
  {
  }

  lemma {:induction false} RowInPlace<T>(entries: seq<Entry<T>>, values: seq<T>, r: nat, n: nat)
    requires |values| == |entries| && n <= |entries|
    requires forall i :: 0 <= i < |entries| ==> Dest(entries, i) < |values| && values[Dest(entries, i)] == entries[i].1
    ensures var lo := Below(entries, r, |entries|);
            lo + Count(entries, r, n) <= |values| && values[lo..lo + Count(entries, r, n)] == RowOf(entries, r, n)
    decreases n
  {
    hide Below, Count, RowOf, Dest;
    var lo := Below(entries, r, |entries|);
    if n == 0 {
      NoEntries(entries, r);
    } else {
      RowInPlace(entries, values, r, n - 1);
      OneMoreEntry(entries, r, n);
      if entries[n - 1].0 == r {
        assert values[Dest(entries, n - 1)] == entries[n - 1].1;
        SliceNext(values, lo, Count(entries, r, n - 1));
      }
    }
  }

  lemma NoEntries<T>(entries: seq<Entry<T>>, r: nat)
    ensures Count(entries, r, 0) == 0 && RowOf(entries, r, 0) == []
  {
  }

  lemma OneMoreEntry<T>(entries: seq<Entry<T>>, r: nat, n: nat)
    requires 0 < n <= |entries|
    ensures var last := entries[n - 1];
            if last.0 == r
            then && Count(entries, r, n) == Count(entries, r, n - 1) + 1
                 && RowOf(entries, r, n) == RowOf(entries, r, n - 1) + [last.1]
                 && Dest(entries, n - 1) == Below(entries, r, |entries|) + Count(entries, r, n - 1)
            else Count(entries, r, n) == Count(entries, r, n - 1) && RowOf(entries, r, n) == RowOf(entries, r, n - 1)
  {
    hide Below;
  }
}
