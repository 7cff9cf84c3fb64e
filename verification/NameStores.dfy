/** One append-only string store: names packed into a byte arena, with a hash
    table of identifiers that tolerates any hash function. */
module NameStores {
  import opened Lists

  datatype Capacity = IdLimit | NameLength | ByteArena
  datatype Result<+T, +E> = Ok(value: T) | Err(error: E)

  type Name = seq<bv8>
  type Hasher = Name -> nat

  const U32_MAX: nat := 0xFFFF_FFFF

  datatype Entry = Entry(start: nat, len: nat, hash: nat)

  // ----- the arena as a value -----

  function End(entries: seq<Entry>, n: nat): nat
    requires n <= |entries|
  {
    if n == 0 then 0 else entries[n - 1].start + entries[n - 1].len
  }

  predicate Follows(entries: seq<Entry>, i: nat)
    requires i < |entries|
  {
    entries[i].start == End(entries, i)
  }

  /** Entries tile the arena in order. */
  predicate Tiles(bytes: Name, entries: seq<Entry>) {
    && |bytes| == End(entries, |entries|)
    && (forall i :: 0 <= i < |entries| ==> Follows(entries, i))
    && (forall i :: 0 <= i < |entries| ==> entries[i].start + entries[i].len <= |bytes|)
  }

  function NamesIn(bytes: Name, entries: seq<Entry>): (names: seq<Name>)
    requires Tiles(bytes, entries)
    ensures |names| == |entries|
  {
    seq(|entries|, i requires 0 <= i < |entries| => bytes[entries[i].start..entries[i].start + entries[i].len])
  }

  function IndexOf(first: nat, entries: seq<Entry>): (index: set<(nat, nat)>) {
    set i | 0 <= i < |entries| :: (entries[i].hash, first + i)
  }

  /** Tiled, hashed with `hasher`, indexed exactly, free of duplicates and within 32 bits. */
  ghost predicate Sound(first: nat, bytes: Name, entries: seq<Entry>, index: set<(nat, nat)>, hasher: Hasher) {
    && Tiles(bytes, entries) && |bytes| <= U32_MAX && first + |entries| <= U32_MAX
    && index == IndexOf(first, entries)
    && (forall i :: 0 <= i < |entries| ==> entries[i].hash == hasher(NamesIn(bytes, entries)[i]))
    && Distinct(NamesIn(bytes, entries))
  }

  lemma {:induction false} EndMonotone(bytes: Name, entries: seq<Entry>, i: nat, j: nat)
    requires Tiles(bytes, entries) && i <= j <= |entries|
    ensures End(entries, i) <= End(entries, j)
  {
    if i < j {
      EndMonotone(bytes, entries, i, j - 1);
      assert Follows(entries, j - 1);
    }
  }

  lemma AppendSound(first: nat, bytes: Name, entries: seq<Entry>, index: set<(nat, nat)>, hasher: Hasher, name: Name)
    requires Sound(first, bytes, entries, index, hasher) && name !in NamesIn(bytes, entries)
    requires first + |entries| < U32_MAX && |bytes| + |name| <= U32_MAX
    ensures var entry := Entry(|bytes|, |name|, hasher(name));
            Sound(first, bytes + name, entries + [entry], index + {(hasher(name), first + |entries|)}, hasher)
            && NamesIn(bytes + name, entries + [entry]) == NamesIn(bytes, entries) + [name]
  {
    var entry := Entry(|bytes|, |name|, hasher(name));
    var bytes', entries' := bytes + name, entries + [entry];
    forall i | 0 <= i < |entries'| ensures Follows(entries', i) {
      if i < |entries| { assert Follows(entries, i); }
    }
    assert Tiles(bytes', entries');
    var names, names' := NamesIn(bytes, entries), NamesIn(bytes', entries');
    forall i | 0 <= i < |entries'| ensures names'[i] == (names + [name])[i] {
      if i < |entries| {
        assert bytes'[entries[i].start..entries[i].start + entries[i].len]
            == bytes[entries[i].start..entries[i].start + entries[i].len];
      } else {
        assert bytes'[|bytes|..|bytes| + |name|] == name;
      }
    }
    assert names' == names + [name];
    IndexAppend(first, entries, entry);
  }

  lemma IndexAppend(first: nat, entries: seq<Entry>, entry: Entry)
    ensures IndexOf(first, entries + [entry]) == IndexOf(first, entries) + {(entry.hash, first + |entries|)}
  {
    var more := entries + [entry];
    forall i | 0 <= i < |entries| ensures (entries[i].hash, first + i) in IndexOf(first, more) {
      assert more[i] == entries[i];
    }
    assert more[|entries|] == entry;
    assert (more[|entries|].hash, first + |entries|) in IndexOf(first, more);
  }

  lemma TruncateTiles(bytes: Name, entries: seq<Entry>, n: nat)
    requires Tiles(bytes, entries) && n <= |entries|
    ensures End(entries, n) <= |bytes| && Tiles(bytes[..End(entries, n)], entries[..n])
    ensures NamesIn(bytes[..End(entries, n)], entries[..n]) == NamesIn(bytes, entries)[..n]
  {
    EndMonotone(bytes, entries, n, |entries|);
    var bytes', entries' := bytes[..End(entries, n)], entries[..n];
    assert n > 0 ==> entries'[n - 1] == entries[n - 1];
    forall i | 0 <= i < n
      ensures Follows(entries', i) && entries'[i].start + entries'[i].len <= |bytes'|
    {
      assert Follows(entries, i);
      assert i > 0 ==> entries'[i - 1] == entries[i - 1];
      EndMonotone(bytes, entries, i + 1, n);
    }
    assert Tiles(bytes', entries');
    forall i | 0 <= i < n ensures NamesIn(bytes', entries')[i] == NamesIn(bytes, entries)[i] {
      assert bytes'[entries[i].start..entries[i].start + entries[i].len]
          == bytes[entries[i].start..entries[i].start + entries[i].len];
    }
    assert NamesIn(bytes', entries') == NamesIn(bytes, entries)[..n];
  }

  lemma TruncateSound(first: nat, bytes: Name, entries: seq<Entry>, index: set<(nat, nat)>, hasher: Hasher, n: nat)
    requires Sound(first, bytes, entries, index, hasher) && n <= |entries|
    ensures End(entries, n) <= |bytes| && Tiles(bytes[..End(entries, n)], entries[..n])
    ensures Sound(first, bytes[..End(entries, n)], entries[..n], IndexOf(first, entries[..n]), hasher)
    ensures NamesIn(bytes[..End(entries, n)], entries[..n]) == NamesIn(bytes, entries)[..n]
  {
    hide Tiles, NamesIn, IndexOf, End;
    TruncateTiles(bytes, entries, n);
    var names := NamesIn(bytes, entries);
    assert forall i :: 0 <= i < n ==> names[..n][i] == names[i];
  }

  lemma IndexDrop(first: nat, entries: seq<Entry>, n: nat)
    requires n < |entries|
    ensures IndexOf(first, entries[..n]) == IndexOf(first, entries[..n + 1]) - {(entries[n].hash, first + n)}
    ensures (entries[n].hash, first + n) in IndexOf(first, entries[..n + 1])
  {
    assert entries[..n + 1] == entries[..n] + [entries[n]];
    IndexAppend(first, entries[..n], entries[n]);
  }

  function ByteTotal(names: seq<Name>): nat {
    if names == [] then 0 else ByteTotal(names[..|names| - 1]) + |names[|names| - 1]|
  }

  lemma {:induction false} ByteTotalIs(bytes: Name, entries: seq<Entry>, n: nat)
    requires Tiles(bytes, entries) && n <= |entries|
    ensures ByteTotal(NamesIn(bytes, entries)[..n]) == End(entries, n)
  {
    if n > 0 {
      ByteTotalIs(bytes, entries, n - 1);
      assert Follows(entries, n - 1);
      var names := NamesIn(bytes, entries);
      assert names[..n][..n - 1] == names[..n - 1];
    }
  }

  // ----- the store -----

  class Store {
    const first: nat
    const hasher: Hasher
    var bytes: Name
    var entries: seq<Entry>
    var index: set<(nat, nat)>

    ghost predicate Valid()
      reads this
    {
      Sound(first, bytes, entries, index, hasher)
    }

    ghost function Names(): (names: seq<Name>)
      requires Valid()
      reads this
      ensures |names| == |entries|
    {
      NamesIn(bytes, entries)
    }

    constructor (first: nat, hasher: Hasher)
      requires first <= U32_MAX
      ensures Valid() && Names() == [] && this.first == first && bytes == []
    {
      this.first, this.hasher := first, hasher;
      bytes, entries, index := [], [], {};
    }

    constructor Copy(other: Store)
      requires other.Valid()
      ensures Valid() && Names() == other.Names() && first == other.first
    {
      first, hasher := other.first, other.hasher;
      bytes, entries, index := other.bytes, other.entries, other.index;
    }

    /** Looks for an indexed identifier with the right hash whose stored name matches. */
    method Get(name: Name) returns (id: Option<nat>)
      requires Valid()
      ensures id.Some? ==> first <= id.value < first + |entries| && Names()[id.value - first] == name
      ensures id.None? <==> name !in Names()
    {
      hide Sound;
      Locate(first, bytes, entries, index, hasher, name);
      if slot :| slot in index && slot.0 == hasher(name) && Resolve(slot.1) == Some(name) {
        return Some(slot.1);
      }
      return None;
    }

    function Resolve(id: nat): (name: Option<Name>)
      requires Valid()
      reads this
      ensures name.Some? <==> first <= id < first + |entries|
      ensures name.Some? ==> name.value == Names()[id - first]
    {
      if id < first || id - first >= |entries| then None
      else Some(bytes[entries[id - first].start..entries[id - first].start + entries[id - first].len])
    }

    method Insert(name: Name) returns (r: Result<nat, Capacity>)
      requires Valid()
      modifies this
      ensures Valid()
      ensures name in old(Names()) ==>
          r.Ok? && first <= r.value < first + |old(entries)| && old(Names())[r.value - first] == name
      ensures name !in old(Names()) ==>
                r == if first + |old(entries)| >= U32_MAX then Err(IdLimit)
                     else if |name| > U32_MAX then Err(NameLength)
                     else if |old(bytes)| + |name| > U32_MAX then Err(ByteArena)
                     else Ok(first + |old(entries)|)
      ensures Names() == if r.Ok? && name !in old(Names()) then old(Names()) + [name] else old(Names())
      ensures bytes == if r.Ok? && name !in old(Names()) then old(bytes) + name else old(bytes)
    {
      hide Sound, Tiles, NamesIn, IndexOf;
      var found := Get(name);
      if found.Some? { return Ok(found.value); }
      if first + |entries| >= U32_MAX { return Err(IdLimit); }
      if |name| > U32_MAX { return Err(NameLength); }
      if |bytes| + |name| > U32_MAX { return Err(ByteArena); }
      AppendSound(first, bytes, entries, index, hasher, name);
      var id, hash := first + |entries|, hasher(name);
      entries := entries + [Entry(|bytes|, |name|, hash)];
      bytes := bytes + name;
      index := index + {(hash, id)};
      return Ok(id);
    }

    /** Drops the names from position `n` on, undoing their index entries last to first. */
    method Truncate(n: nat)
      requires Valid() && n <= |entries|
      modifies this
      ensures Valid() && Names() == old(Names())[..n]
    {
      hide Tiles, NamesIn, IndexOf, Distinct;
      if n == |entries| { assert Names()[..n] == Names(); return; }
      TruncateSound(first, bytes, entries, index, hasher, n);
      var local := |entries|;
      assert entries[..local] == entries;
      while local > n
        invariant n <= local <= |entries|
        invariant entries == old(entries) && bytes == old(bytes)
        invariant index == IndexOf(first, entries[..local])
      {
        local := local - 1;
        IndexDrop(first, entries, local);
        index := index - {(entries[local].hash, first + local)};
      }
      bytes, entries := bytes[..End(entries, n)], entries[..n];
    }

    /** Rebuilds the index from the stored hashes. */
    method Compact()
      requires Valid()
      modifies this`index
      ensures Valid() && index == old(index) && Names() == old(Names())
    {
      hide Tiles, NamesIn, Distinct;
      var rebuilt: set<(nat, nat)> := {};
      for local := 0 to |entries|
        invariant rebuilt == IndexOf(first, entries[..local])
      {
        IndexDrop(first, entries, local);
        rebuilt := rebuilt + {(entries[local].hash, first + local)};
      }
      assert entries[..|entries|] == entries;
      index := rebuilt;
    }
  }

  /** The table lookup is exact whatever the hash function does. */
  lemma Locate(first: nat, bytes: Name, entries: seq<Entry>, index: set<(nat, nat)>, hasher: Hasher, name: Name)
    requires Sound(first, bytes, entries, index, hasher)
    ensures forall slot :: slot in index ==>
        first <= slot.1 < first + |entries| && slot.0 == entries[slot.1 - first].hash
    ensures Tiles(bytes, entries)
    ensures name in NamesIn(bytes, entries) ==>
              exists i :: 0 <= i < |entries| && NamesIn(bytes, entries)[i] == name && (hasher(name), first + i) in index
  {
    hide Tiles, NamesIn, Distinct;
    Slots(first, entries);
    if name in NamesIn(bytes, entries) {
      var i :| 0 <= i < |entries| && NamesIn(bytes, entries)[i] == name;
      hide IndexOf;
      assert entries[i].hash == hasher(name);
    }
  }

  lemma Slots(first: nat, entries: seq<Entry>)
    ensures forall slot :: slot in IndexOf(first, entries) ==>
        first <= slot.1 < first + |entries| && slot.0 == entries[slot.1 - first].hash
    ensures forall i :: 0 <= i < |entries| ==> (entries[i].hash, first + i) in IndexOf(first, entries)
  {
  }
}
