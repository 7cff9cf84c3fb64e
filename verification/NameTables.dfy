/** The two-level interner: a frozen store shared between clones and a mutable delta.
    Together they denote one sequence of distinct names starting with the empty name. */
module NameTables {
  import opened Lists
  import opened NameStores

  datatype Checkpoint = Checkpoint(frozen: nat, delta: nat)
  datatype DecodeError = MissingEmptyName | Duplicate | TooLarge(kind: Capacity)

  /** What every table denotes. */
  ghost predicate Denotes(frozen: seq<Name>, delta: seq<Name>, names: seq<Name>) {
    names == frozen + delta && Distinct(names) && frozen != [] && frozen[0] == []
  }

  lemma DistinctAppend(names: seq<Name>, name: Name)
    requires Distinct(names) && name !in names
    ensures Distinct(names + [name])
  {
  }

  lemma DenotesMore(frozen: seq<Name>, delta: seq<Name>, name: Name)
    requires Denotes(frozen, delta, frozen + delta) && name !in frozen + delta
    ensures Denotes(frozen, delta + [name], frozen + (delta + [name])) && name !in delta
    ensures frozen + (delta + [name]) == frozen + delta + [name]
  {
    hide Distinct;
    DistinctAppend(frozen + delta, name);
    assert frozen + (delta + [name]) == frozen + delta + [name];
  }

  class Table {
    var frozen: Store
    var delta: Store

    ghost predicate Valid()
      reads this, frozen, delta
    {
      && frozen != delta && frozen.Valid() && delta.Valid()
      && frozen.first == 0 && delta.first == |frozen.entries|
      && Denotes(frozen.Names(), delta.Names(), frozen.Names() + delta.Names())
    }

    ghost function Names(): (names: seq<Name>)
      requires Valid()
      reads this, frozen, delta
    {
      frozen.Names() + delta.Names()
    }

    constructor (hasher: Hasher, hasher': Hasher)
      ensures Valid() && Names() == [[]] && fresh(frozen) && fresh(delta)
    {
      var store := new Store(0, hasher);
      var id := store.Insert([]);
      frozen := store;
      delta := new Store(1, hasher');
    }

    constructor From(frozen: Store, delta: Store)
      requires frozen != delta && frozen.Valid() && delta.Valid() && frozen.first == 0
      requires delta.first == |frozen.entries|
      requires Denotes(frozen.Names(), delta.Names(), frozen.Names() + delta.Names())
      ensures Valid() && this.frozen == frozen && this.delta == delta
    {
      this.frozen, this.delta := frozen, delta;
    }

    function EntryCount(): nat
      reads this, frozen, delta
    {
      |frozen.entries| + |delta.entries|
    }

    function StoredBytes(): nat
      reads this, frozen, delta
    {
      |frozen.bytes| + |delta.bytes|
    }

    /** Finds a name exactly when it is present, at its only position. */
    method Get(name: Name) returns (id: Option<nat>)
      requires Valid()
      ensures forall i :: id == Some(i) <==> 0 <= i < |Names()| && Names()[i] == name
      ensures id.None? <==> name !in Names()
    {
      hide Sound, NamesIn;
      if |delta.entries| != 0 {
        id := delta.Get(name);
        if id.Some? {
          assert Names()[id.value] == name;
          return;
        }
      }
      id := frozen.Get(name);
      if id.Some? { assert Names()[id.value] == name; }
    }

    function Resolve(id: nat): (name: Option<Name>)
      requires Valid()
      reads this, frozen, delta
      ensures name == if id < |Names()| then Some(Names()[id]) else None
    {
      hide Sound, NamesIn;
      var early := frozen.Resolve(id);
      if early.Some? then early else delta.Resolve(id)
    }

    /** Returns the position of a present name and otherwise appends it. */
    method Intern(name: Name) returns (r: Result<nat, Capacity>)
      requires Valid()
      modifies delta
      ensures Valid() && frozen.Names() == old(frozen.Names())
      ensures name in old(Names()) ==>
          r.Ok? && r.value < |Names()| && Names()[r.value] == name && Names() == old(Names())
      ensures name !in old(Names()) ==>
                r == if |old(Names())| == U32_MAX then Err(IdLimit)
                     else if |name| > U32_MAX then Err(NameLength)
                     else if |old(delta.bytes)| + |name| > U32_MAX then Err(ByteArena)
                     else Ok(|old(Names())|)
      ensures name !in old(Names()) ==> Names() == if r.Ok? then old(Names()) + [name] else old(Names())
    {
      hide Sound, NamesIn, IndexOf, Tiles, Distinct, Denotes, ByteTotal;
      Totals();
      var found := Get(name);
      if found.Some? { return Ok(found.value); }
      DenotesMore(frozen.Names(), delta.Names(), name);
      r := delta.Insert(name);
    }

    function TakeCheckpoint(): Checkpoint
      reads this, frozen, delta
    {
      Checkpoint(|frozen.entries|, |delta.entries|)
    }

    function Accepts(c: Checkpoint): bool
      reads this, frozen, delta
    {
      |frozen.entries| == c.frozen && c.delta <= |delta.entries|
    }

    /** An accepted rollback keeps exactly a prefix; a rejected one changes nothing. */
    method Rollback(c: Checkpoint) returns (ok: bool)
      requires Valid()
      modifies delta
      ensures Valid() && ok == old(Accepts(c)) && frozen.Names() == old(frozen.Names())
      ensures ok ==> c.frozen + c.delta <= |old(Names())| && Names() == old(Names())[..c.frozen + c.delta]
      ensures !ok ==> Names() == old(Names())
    {
      hide Sound, NamesIn;
      ok := Accepts(c);
      if ok {
        ghost var all, kept := Names(), delta.Names()[..c.delta];
        delta.Truncate(c.delta);
        assert frozen.Names() + kept == all[..c.frozen + c.delta];
      }
    }

    /** A new store holding every name in identifier order. */
    method Merged(hasher: Hasher) returns (r: Result<Store, Capacity>)
      requires Valid()
      ensures r.Ok? <==> StoredBytes() <= U32_MAX
      ensures r.Err? ==> r.error == ByteArena
      ensures r.Ok? ==> fresh(r.value) && r.value.Valid() && r.value.first == 0 && r.value.Names() == Names()
    {
      hide Sound, NamesIn, Tiles;
      ghost var all := Names();
      Totals();
      var merged := new Store(0, hasher);
      for raw := 0 to EntryCount()
        invariant fresh(merged) && merged.Valid() && merged.first == 0
        invariant merged.Names() == all[..raw] && |merged.bytes| == ByteTotal(all[..raw]) <= U32_MAX
      {
        var name := Resolve(raw).value;
        var id := InsertNext(merged, all, raw, name);
        if id.Err? { return Err(id.error); }
      }
      assert all[..|all|] == all;
      r := Ok(merged);
    }

    /** Moves the delta into a new frozen store; fails exactly when the bytes do not fit. */
    method Freeze(hasher: Hasher, hasher': Hasher) returns (r: Result<(), Capacity>)
      requires Valid()
      modifies this
      ensures Valid() && Names() == old(Names())
      ensures r == if old(delta.entries) == [] || old(StoredBytes()) <= U32_MAX then Ok(()) else Err(ByteArena)
      ensures r.Ok? ==> delta.Names() == []
      ensures r.Err? || old(delta.entries) == [] ==> frozen == old(frozen) && delta == old(delta)
      ensures r.Ok? && old(delta.entries) != [] ==> fresh(frozen) && fresh(delta)
    {
      hide Sound, NamesIn, Tiles, Distinct;
      if |delta.entries| == 0 { return Ok(()); }
      ghost var all := Names();
      var merged := Merged(hasher);
      if merged.Err? { return Err(merged.error); }
      var store := merged.value;
      StoreLimits(store.first, store.bytes, store.entries, store.index, store.hasher);
      var rest := new Store(|store.entries|, hasher');
      frozen, delta := store, rest;
      assert frozen.Names() + delta.Names() == all;
      r := Ok(());
    }

    /** The arena sizes are the total length of the names, which all have 32-bit identifiers. */
    lemma Totals()
      requires Valid()
      ensures StoredBytes() == ByteTotal(Names()) && |Names()| == EntryCount() <= U32_MAX
      ensures forall i :: 0 <= i < |Names()| ==> |Names()[i]| <= U32_MAX
    {
      ByteTotalIs(frozen.bytes, frozen.entries, |frozen.entries|);
      ByteTotalIs(delta.bytes, delta.entries, |delta.entries|);
      assert frozen.Names()[..|frozen.entries|] == frozen.Names();
      assert delta.Names()[..|delta.entries|] == delta.Names();
      ByteTotalSum(frozen.Names(), delta.Names());
    }

    /** The bytes of each level are the total length of its names. */
    lemma Levels()
      requires Valid()
      ensures |frozen.bytes| == ByteTotal(frozen.Names()) && |delta.bytes| == ByteTotal(delta.Names())
      ensures Names() == [[]] || delta.Names() == [] ==> delta.bytes == []
    {
      ByteTotalIs(frozen.bytes, frozen.entries, |frozen.entries|);
      ByteTotalIs(delta.bytes, delta.entries, |delta.entries|);
      assert frozen.Names()[..|frozen.entries|] == frozen.Names();
      assert delta.Names()[..|delta.entries|] == delta.Names();
    }

    /** Releases spare capacity: shared frozen storage is left alone, and a rebuilt index equals the old one. */
    method Compact(exclusive: bool)
      requires Valid()
      modifies frozen`index, delta`index
      ensures Valid() && Names() == old(Names())
      ensures frozen.index == old(frozen.index) && delta.index == old(delta.index)
    {
      hide Sound, NamesIn;
      if exclusive { frozen.Compact(); }
      delta.Compact();
    }

    method Serialize() returns (names: seq<Name>)
      requires Valid()
      ensures names == Names()
    {
      hide Sound, NamesIn;
      names := [];
      for raw := 0 to EntryCount()
        invariant names == Names()[..raw]
      {
        names := names + [Resolve(raw).value];
      }
    }
  }

  /** A clone shares the frozen store and copies the delta. */
  method Clone(table: Table) returns (copy: Table)
    requires table.Valid()
    ensures fresh(copy) && copy.Valid() && copy.Names() == table.Names()
    ensures copy.frozen == table.frozen && fresh(copy.delta)
  {
    hide Sound, NamesIn, Tiles, Distinct;
    var delta := new Store.Copy(table.delta);
    copy := new Table.From(table.frozen, delta);
  }

  /** Copies name `n` of a distinct list into a store that holds the names before it. */
  method InsertNext(store: Store, ghost all: seq<Name>, ghost n: nat, name: Name) returns (r: Result<nat, Capacity>)
    requires store.Valid() && store.first == 0 && Distinct(all) && n < |all| <= U32_MAX && all[n] == name
    requires |name| <= U32_MAX
    requires store.Names() == all[..n] && |store.bytes| == ByteTotal(all[..n])
    modifies store
    ensures store.Valid()
    ensures r == if ByteTotal(all[..n + 1]) <= U32_MAX then Ok(n) else Err(ByteArena)
    ensures ByteTotal(all[..n + 1]) <= ByteTotal(all)
    ensures r.Ok? ==> store.Names() == all[..n + 1] && |store.bytes| == ByteTotal(all[..n + 1])
  {
    hide Sound, NamesIn, Tiles, ByteTotal;
    assert all[..n + 1] == all[..n] + [name];
    FreshName(all, n);
    ByteTotalNext(all, n);
    r := store.Insert(name);
  }

  // ----- byte totals -----

  lemma ByteTotalNext(names: seq<Name>, n: nat)
    requires n < |names|
    ensures ByteTotal(names[..n + 1]) == ByteTotal(names[..n]) + |names[n]|
    ensures ByteTotal(names[..n + 1]) <= ByteTotal(names)
  {
    assert names[..n + 1][..n] == names[..n];
    ByteTotalGrows(names, n + 1);
  }

  lemma {:induction false} ByteTotalGrows(names: seq<Name>, n: nat)
    requires n <= |names|
    ensures ByteTotal(names[..n]) <= ByteTotal(names)
    decreases |names|
  {
    if n == |names| {
      assert names[..n] == names;
    } else {
      ByteTotalGrows(names[..|names| - 1], n);
      assert names[..|names| - 1][..n] == names[..n];
    }
  }

  lemma {:induction false} ByteTotalSum(a: seq<Name>, b: seq<Name>)
    ensures ByteTotal(a + b) == ByteTotal(a) + ByteTotal(b)
    decreases |b|
  {
    if b == [] {
      assert a + b == a;
    } else {
      assert (a + b)[..|a + b| - 1] == a + b[..|b| - 1];
      ByteTotalSum(a, b[..|b| - 1]);
    }
  }

  lemma FreshName(names: seq<Name>, n: nat)
    requires Distinct(names) && n < |names|
    ensures names[n] !in names[..n]
  {
  }

  lemma StoreLimits(first: nat, bytes: Name, entries: seq<Entry>, index: set<(nat, nat)>, hasher: Hasher)
    requires Sound(first, bytes, entries, index, hasher)
    ensures first + |entries| <= U32_MAX && |bytes| <= U32_MAX
  {
  }

  // ----- the wire form -----

  /** A wire sequence is accepted exactly when it is a table's name list within 32 bits. */
  ghost predicate Wire(names: seq<Name>) {
    names != [] && names[0] == [] && Distinct(names) && |names| <= U32_MAX && ByteTotal(names) <= U32_MAX
  }

  method Deserialize(names: seq<Name>, hasher: Hasher, hasher': Hasher) returns (r: Result<Table, DecodeError>)
    ensures r.Ok? <==> Wire(names)
    ensures r.Ok? ==> fresh(r.value) && r.value.Valid() && r.value.Names() == names && r.value.delta.Names() == []
    ensures names == [] || names[0] != [] ==> r == Err(MissingEmptyName)
    ensures r == Err(Duplicate) ==> !Distinct(names)
  {
    hide Sound, NamesIn, Tiles;
    var store := new Store(0, hasher);
    for expected := 0 to |names|
      invariant fresh(store) && store.Valid() && store.first == 0
      invariant store.Names() == names[..expected] && |store.bytes| == ByteTotal(names[..expected])
      invariant expected > 0 ==> names[0] == []
    {
      var name := names[expected];
      if expected == 0 && name != [] { return Err(MissingEmptyName); }
      ByteTotalNext(names, expected);
      assert names[..expected + 1] == names[..expected] + [name];
      var id := store.Insert(name);
      if id.Err? {
        return Err(TooLarge(id.error));
      }
      if id.value != expected {
        return Err(Duplicate);
      }
    }
    if |names| == 0 { return Err(MissingEmptyName); }
    assert names[..|names|] == names;
    r := Opened(store, names, hasher');
  }

  method Opened(store: Store, ghost names: seq<Name>, hasher: Hasher) returns (r: Result<Table, DecodeError>)
    requires store.Valid() && store.first == 0 && store.Names() == names && names != [] && names[0] == []
    ensures r.Ok? && fresh(r.value) && r.value.Valid() && r.value.Names() == names && r.value.delta.Names() == []
    ensures Wire(names)
  {
    StoreLimits(store.first, store.bytes, store.entries, store.index, store.hasher);
    ByteTotalIs(store.bytes, store.entries, |store.entries|);
    assert names[..|names|] == names;
    hide NamesIn, Tiles;
    var rest := new Store(|store.entries|, hasher);
    assert store.Names() + rest.Names() == names;
    var table := new Table.From(store, rest);
    r := Ok(table);
  }

  /** Serializing and decoding keeps every identifier, exactly when the names fit one arena. */
  method RoundTrip(table: Table, hasher: Hasher, hasher': Hasher) returns (r: Result<Table, DecodeError>)
    requires table.Valid()
    ensures r.Ok? <==> table.StoredBytes() <= U32_MAX
    ensures r.Ok? ==> r.value.Valid() && r.value.Names() == table.Names()
  {
    table.Totals();
    var wire := table.Serialize();
    r := Deserialize(wire, hasher, hasher');
  }

  /** A table can hold more bytes than one arena, because each level has its own:
      its wire form is then refused. */
  method OutgrowsTheWire(hasher: Hasher, hasher': Hasher) returns (table: Table, r: Result<Table, DecodeError>)
    ensures table.Valid() && table.StoredBytes() > U32_MAX && r.Err?
  {
    hide Sound, NamesIn, Tiles, ByteTotal;
    table := new Table(hasher, hasher');
    var long: Name := seq(U32_MAX, _ => 0);
    assert table.delta.bytes == [] by { table.Levels(); }
    var first := table.Intern(long);
    assert table.Names() == [[], long];
    Bytes(long);
    table.Totals();
    var frozen := table.Freeze(hasher, hasher');
    table.Levels();
    assert long != [1] by { assert |long| != |[1 as bv8]|; }
    var second := table.Intern([1]);
    assert table.Names() == [[], long, [1]];
    table.Totals();
    r := RoundTrip(table, hasher, hasher');
  }

  lemma Bytes(long: Name)
    ensures ByteTotal([[], long]) == |long| && ByteTotal([[], long, [1]]) == |long| + 1
  {
    var one: seq<Name> := [[]];
    var two: seq<Name> := [[], long];
    var three: seq<Name> := [[], long, [1]];
    assert one[..0] == [] && two[..1] == one && three[..2] == two;
    assert ByteTotal(one) == 0 && ByteTotal(two) == |long|;
  }

  // ----- speculation -----

  /** Interning any names and rolling back restores the checkpointed table. */
  method Speculate(table: Table, names: seq<Name>) returns (ok: bool)
    requires table.Valid()
    modifies table.delta
    ensures ok && table.Valid() && table.Names() == old(table.Names())
  {
    hide Sound, NamesIn, Tiles, Distinct;
    var checkpoint := table.TakeCheckpoint();
    ghost var was := table.Names();
    for i := 0 to |names|
      invariant table.Valid() && |table.frozen.entries| == checkpoint.frozen
      invariant |table.delta.entries| >= checkpoint.delta
      invariant |table.Names()| >= |was| && table.Names()[..|was|] == was
    {
      ghost var before := table.Names();
      var r := table.Intern(names[i]);
      assert table.Names()[..|was|] == before[..|was|];
    }
    ok := table.Rollback(checkpoint);
  }

  // ----- clones -----

  datatype TableOp =
    | InternOp(name: Name)
    | RollbackOp(checkpoint: Checkpoint)
    | FreezeOp(hasher: Hasher, hasher': Hasher)
    | CompactOp(exclusive: bool)

  /** The simple object: the names, and how many of them are frozen. */
  datatype Plain = Plain(names: seq<Name>, frozen: nat)

  ghost function PlainOf(table: Table): Plain
    requires table.Valid()
    reads table, table.frozen, table.delta
  {
    Plain(table.Names(), |table.frozen.entries|)
  }

  function PlainStep(p: Plain, op: TableOp): (next: Plain)
    requires p.frozen <= |p.names|
    ensures next.frozen <= |next.names|
  {
    match op
    case InternOp(name) =>
      if name !in p.names && |p.names| < U32_MAX && |name| <= U32_MAX
          && ByteTotal(p.names[p.frozen..]) + |name| <= U32_MAX
      then p.(names := p.names + [name]) else p
    case RollbackOp(c) =>
      if p.frozen == c.frozen && c.frozen + c.delta <= |p.names| then p.(names := p.names[..c.frozen + c.delta]) else p
    case FreezeOp(_, _) =>
      if ByteTotal(p.names) <= U32_MAX then p.(frozen := |p.names|) else p
    case CompactOp(_) => p
  }

  function PlainRun(p: Plain, ops: seq<TableOp>): (last: Plain)
    requires p.frozen <= |p.names|
    ensures last.frozen <= |last.names|
    decreases |ops|
  {
    if ops == [] then p else PlainStep(PlainRun(p, ops[..|ops| - 1]), ops[|ops| - 1])
  }

  lemma {:induction false} RunNext(p: Plain, ops: seq<TableOp>, i: nat)
    requires p.frozen <= |p.names| && i < |ops|
    ensures PlainRun(p, ops[..i + 1]) == PlainStep(PlainRun(p, ops[..i]), ops[i])
  {
    assert ops[..i + 1][..i] == ops[..i];
  }

  /** Two tables that share at most their frozen store. */
  ghost predicate Apart(table: Table, other: Table)
    reads table, other
  {
    table != other && table.delta != other.delta && table.delta != other.frozen && other.delta != table.frozen
  }

  method Perform(table: Table, op: TableOp)
    requires table.Valid()
    modifies table, table.delta, table.frozen`index
    ensures table.Valid()
    ensures old(PlainOf(table)).frozen <= |old(PlainOf(table)).names|
    ensures PlainOf(table) == PlainStep(old(PlainOf(table)), op)
    ensures old(table.frozen).index == old(table.frozen.index)
    ensures table.frozen == old(table.frozen) || fresh(table.frozen)
    ensures table.delta == old(table.delta) || fresh(table.delta)
  {
    hide Sound, NamesIn, Tiles, Distinct, Denotes, ByteTotal;
    table.Totals();
    table.Levels();
    ghost var names, frozen := table.Names(), |table.frozen.entries|;
    assert table.delta.Names() == names[frozen..];
    match op {
      case InternOp(name) => var _ := table.Intern(name);
      case RollbackOp(checkpoint) => var _ := table.Rollback(checkpoint);
      case FreezeOp(hasher, hasher') => var _ := table.Freeze(hasher, hasher');
      case CompactOp(exclusive) => table.Compact(exclusive);
    }
  }

  /** A run acts on its table as on a plain list of names, and a table that shares its
      frozen store keeps its own names. */
  method RunBeside(table: Table, ops: seq<TableOp>, ghost other: Table)
    requires table.Valid() && other.Valid() && Apart(table, other)
    modifies table, table.delta, table.frozen`index
    ensures table.Valid() && old(PlainOf(table)).frozen <= |old(PlainOf(table)).names|
    ensures PlainOf(table) == PlainRun(old(PlainOf(table)), ops)
    ensures other.Valid() && other.Names() == old(other.Names())
  {
    hide Sound, NamesIn, Tiles, Distinct, Denotes, PlainStep, PlainRun;
    ghost var start := PlainOf(table);
    EmptyRun(start);
    assert ops[..0] == [] && ops[..|ops|] == ops;
    for i := 0 to |ops|
      invariant table.Valid() && PlainOf(table) == PlainRun(start, ops[..i])
      invariant other.Valid() && Apart(table, other) && other.Names() == old(other.Names())
      invariant table.frozen == old(table.frozen) || fresh(table.frozen)
      invariant table.delta == old(table.delta) || fresh(table.delta)
    {
      Perform(table, ops[i]);
      RunNext(start, ops, i);
    }
  }

  lemma EmptyRun(p: Plain)
    requires p.frozen <= |p.names|
    ensures PlainRun(p, []) == p
  {
  }

  /** A clone and its original never see each other's changes: the one that is left alone keeps its names. */
  method CloneIsolated(table: Table, ops: seq<TableOp>, onCopy: bool) returns (copy: Table)
    requires table.Valid()
    modifies table, table.delta, table.frozen`index
    ensures table.Valid() && copy.Valid() && old(PlainOf(table)).frozen <= |old(PlainOf(table)).names|
    ensures (if onCopy then table else copy).Names() == old(table.Names())
    ensures PlainOf(if onCopy then copy else table) == PlainRun(old(PlainOf(table)), ops)
  {
    hide Sound, NamesIn, Tiles, Distinct, Denotes;
    copy := Clone(table);
    if onCopy { RunBeside(copy, ops, table); } else { RunBeside(table, ops, copy); }
  }
}
