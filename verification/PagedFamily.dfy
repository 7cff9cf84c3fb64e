/** A family of paged vectors over one page memory: forks, writes, growth and
    truncation in any order leave every other member untouched. */
module PagedFamily {
  import opened Lists
  import opened PagedVectors

  /** Every vector's pages are in memory. */
  predicate AllHold<T>(memory: map<nat, seq<T>>, vectors: seq<Vector<T>>) {
    forall v :: 0 <= v < |vectors| ==> Holds(memory, vectors[v])
  }

  /** The independent sequences a family stands for. */
  function ViewOf<T>(memory: map<nat, seq<T>>, vectors: seq<Vector<T>>): (view: seq<seq<T>>)
    requires AllHold(memory, vectors)
    ensures |view| == |vectors| && forall v :: 0 <= v < |vectors| ==> view[v] == Contents(memory, vectors[v])
  {
    seq(|vectors|, v requires 0 <= v < |vectors| => Contents(memory, vectors[v]))
  }

  /** Every page is only ever used at one page-table position. */
  predicate Placed<T>(vectors: seq<Vector<T>>, position: map<nat, nat>) {
    forall v, k :: 0 <= v < |vectors| && 0 <= k < |vectors[v].pages| ==>
      vectors[v].pages[k] in position && position[vectors[v].pages[k]] == k
  }

  /** Exclusive ownership: exactly one page-table entry refers to the page. */
  predicate Exclusive<T>(vectors: seq<Vector<T>>, v: nat, k: nat)
    requires v < |vectors| && k < |vectors[v].pages|
  {
    forall w, l :: 0 <= w < |vectors| && 0 <= l < |vectors[w].pages| && vectors[w].pages[l] == vectors[v].pages[k] ==>
        w == v && l == k
  }

  /** The page tables and pages of every member but `v` are as they were. */
  ghost predicate OthersKept<T>(memory: map<nat, seq<T>>, vectors: seq<Vector<T>>,
                                memory': map<nat, seq<T>>, vectors': seq<Vector<T>>, v: nat)
  {
    && |vectors'| == |vectors|
    && (forall w :: 0 <= w < |vectors| && w != v ==>
        vectors'[w] == vectors[w] && Untouched(memory, memory', vectors[w]))
  }

  ghost predicate Untouched<T>(memory: map<nat, seq<T>>, memory': map<nat, seq<T>>, vector: Vector<T>) {
    forall k :: 0 <= k < |vector.pages| ==>
      vector.pages[k] in memory && vector.pages[k] in memory' && memory'[vector.pages[k]] == memory[vector.pages[k]]
  }

  lemma StillUntouched<T>(start: map<nat, seq<T>>, memory: map<nat, seq<T>>, vector: Vector<T>, page: nat,
                          values: seq<T>)
    requires Untouched(start, memory, vector) && page !in memory
    ensures Untouched(start, memory[page := values], vector)
  {
  }

  ghost predicate PagesPlaced<T>(memory: map<nat, seq<T>>, position: map<nat, nat>, pages: seq<nat>) {
    forall k :: 0 <= k < |pages| ==> pages[k] in memory && pages[k] in position && position[pages[k]] == k
  }

  /** Full pages are kept and the tail page is filled up with defaults. */
  ghost predicate TailGrown<T>(memory: map<nat, seq<T>>, v: Vector<T>, memory': map<nat, seq<T>>, pages': seq<nat>,
                               len: nat)
    requires Holds(memory, v) && v.len < len
  {
    && |pages'| >= |v.pages|
    && (forall k :: 0 <= k < |v.pages| ==> pages'[k] in memory')
    && (forall k :: 0 <= k < v.len / PAGE ==> memory'[pages'[k]] == memory[v.pages[k]])
    && (v.len % PAGE != 0 ==>
          memory'[pages'[v.len / PAGE]] ==
          FillPage(memory[v.pages[v.len / PAGE]], v.len % PAGE, VisibleLen(len, v.len / PAGE), v.default))
  }

  lemma StillGrown<T>(memory: map<nat, seq<T>>, v: Vector<T>, memory': map<nat, seq<T>>, pages': seq<nat>, len: nat,
                      page: nat, values: seq<T>)
    requires Holds(memory, v) && v.len < len && TailGrown(memory, v, memory', pages', len) && page !in memory'
    ensures TailGrown(memory, v, memory'[page := values], pages' + [page], len)
  {
  }

  lemma StillPlaced<T>(start: map<nat, seq<T>>, memory: map<nat, seq<T>>, vectors: seq<Vector<T>>, v: nat,
                       position: map<nat, nat>, page: nat, k: nat)
    requires Placed(vectors, position) && v < |vectors| && page !in memory
    requires forall w :: 0 <= w < |vectors| && w != v ==> Untouched(start, memory, vectors[w])
    requires forall l :: 0 <= l < |vectors[v].pages| ==> vectors[v].pages[l] in memory
    ensures Placed(vectors, position[page := k])
  {
  }

  lemma GrownFully<T>(memory: map<nat, seq<T>>, v: Vector<T>, memory': map<nat, seq<T>>, pages': seq<nat>, len: nat)
    requires Holds(memory, v) && v.len < len && TailGrown(memory, v, memory', pages', len)
    requires |pages'| == PagesFor(len) && forall k :: 0 <= k < |pages'| ==> pages'[k] in memory'
    requires forall k :: |v.pages| <= k < |pages'| ==> memory'[pages'[k]] == Repeat(VisibleLen(len, k), v.default)
    ensures Grows(memory, v, memory', pages', len)
  {
  }

  /** Writing a page that only `v` uses leaves the pages of every other member alone. */
  lemma WriteExclusive<T>(memory: map<nat, seq<T>>, vectors: seq<Vector<T>>, v: nat, k: nat, values: seq<T>)
    requires AllHold(memory, vectors) && v < |vectors| && k < |vectors[v].pages| && Exclusive(vectors, v, k)
    ensures forall w :: 0 <= w < |vectors| && w != v ==>
        Untouched(memory, memory[vectors[v].pages[k] := values], vectors[w])
  {
    forall w | 0 <= w < |vectors| && w != v
        ensures Untouched(memory, memory[vectors[v].pages[k] := values], vectors[w]) {
      assert Holds(memory, vectors[w]);
    }
  }

  /** A new page leaves every member's pages alone. */
  lemma WriteFresh<T>(memory: map<nat, seq<T>>, vectors: seq<Vector<T>>, page: nat, values: seq<T>)
    requires AllHold(memory, vectors) && page !in memory
    ensures forall w :: 0 <= w < |vectors| ==> Untouched(memory, memory[page := values], vectors[w])
  {
    forall w | 0 <= w < |vectors| ensures Untouched(memory, memory[page := values], vectors[w]) {
      assert Holds(memory, vectors[w]);
    }
  }

  lemma NothingWritten<T>(memory: map<nat, seq<T>>, vectors: seq<Vector<T>>)
    requires AllHold(memory, vectors)
    ensures forall w :: 0 <= w < |vectors| ==> Untouched(memory, memory, vectors[w])
  {
    forall w | 0 <= w < |vectors| ensures Untouched(memory, memory, vectors[w]) {
      assert Holds(memory, vectors[w]);
    }
  }

  lemma PlacedFresh<T>(memory: map<nat, seq<T>>, vectors: seq<Vector<T>>, position: map<nat, nat>, page: nat, k: nat)
    requires AllHold(memory, vectors) && Placed(vectors, position) && page !in memory
    ensures Placed(vectors, position[page := k])
  {
    forall w, l | 0 <= w < |vectors| && 0 <= l < |vectors[w].pages|
      ensures vectors[w].pages[l] in position[page := k] && position[page := k][vectors[w].pages[l]] == l
    {
      assert Holds(memory, vectors[w]);
    }
  }

  /** A page-table entry that is moved to a new page is the only one that refers to it. */
  lemma Replaced<T>(memory: map<nat, seq<T>>, vectors: seq<Vector<T>>, position: map<nat, nat>, v: nat, k: nat,
                    page: nat)
    requires AllHold(memory, vectors) && Placed(vectors, position) && page !in memory && v < |vectors|
    requires k < |vectors[v].pages|
    ensures var vectors' := vectors[v := vectors[v].(pages := vectors[v].pages[k := page])];
            Placed(vectors', position[page := k]) && Exclusive(vectors', v, k)
  {
    forall w, l | 0 <= w < |vectors| && 0 <= l < |vectors[w].pages| ensures vectors[w].pages[l] != page {
      assert Holds(memory, vectors[w]);
    }
  }

  lemma HeldPages<T>(memory: map<nat, seq<T>>, vectors: seq<Vector<T>>, position: map<nat, nat>, v: nat)
    requires AllHold(memory, vectors) && Placed(vectors, position) && v < |vectors|
    ensures PagesPlaced(memory, position, vectors[v].pages) && |vectors[v].pages| == PagesFor(vectors[v].len)
    ensures forall i, j :: 0 <= i < j < |vectors[v].pages| ==> vectors[v].pages[i] != vectors[v].pages[j]
  {
    assert Holds(memory, vectors[v]);
  }

  /** Filling the tail page, in place or on a copy, grows the tail. */
  lemma TailFilled<T>(memory: map<nat, seq<T>>, v: Vector<T>, memory': map<nat, seq<T>>, pages': seq<nat>, len: nat)
    requires Holds(memory, v) && v.len < len && |pages'| == |v.pages|
    requires forall k :: 0 <= k < |v.pages| ==> pages'[k] in memory'
    requires forall k :: 0 <= k < |v.pages| && (k != v.len / PAGE || v.len % PAGE == 0) ==>
        memory'[pages'[k]] == memory[v.pages[k]]
    requires v.len % PAGE != 0 ==>
               && v.len / PAGE < |v.pages|
               && memory'[pages'[v.len / PAGE]] ==
                  FillPage(memory[v.pages[v.len / PAGE]], v.len % PAGE, VisibleLen(len, v.len / PAGE), v.default)
    ensures TailGrown(memory, v, memory', pages', len)
  {
    hide FillPage;
  }

  /** Untouched members show what they showed before. */
  lemma OthersShown<T>(memory: map<nat, seq<T>>, vectors: seq<Vector<T>>, memory': map<nat, seq<T>>,
                       vectors': seq<Vector<T>>, v: nat)
    requires AllHold(memory, vectors) && v < |vectors| && OthersKept(memory, vectors, memory', vectors', v)
    requires Holds(memory', vectors'[v])
    ensures AllHold(memory', vectors')
    ensures ViewOf(memory', vectors') == ViewOf(memory, vectors)[v := Contents(memory', vectors'[v])]
  {
    hide Holds, Contents;
    forall w | 0 <= w < |vectors| && w != v
      ensures Holds(memory', vectors'[w]) && Contents(memory', vectors'[w]) == Contents(memory, vectors[w])
    {
      ContentsFrame(memory, memory', vectors[w]);
    }
  }

  class Family<T> {
    var memory: map<nat, seq<T>>
    var vectors: seq<Vector<T>>
    var nextPage: nat
    ghost var position: map<nat, nat>

    ghost predicate Valid()
      reads this
    {
      && AllHold(memory, vectors)
      && Placed(vectors, position)
      && (forall p :: p in memory ==> p < nextPage)
    }

    ghost function View(): seq<seq<T>>
      reads this
      requires Valid()
    {
      ViewOf(memory, vectors)
    }

    constructor ()
      ensures Valid() && View() == []
    {
      memory, vectors, nextPage, position := map[], [], 0, map[];
    }

    /** Adds an empty vector whose future slots use `default`. */
    method New(default: T) returns (v: nat)
      requires Valid()
      modifies this
      ensures Valid() && View() == old(View()) + [[]] && v == |old(vectors)|
      ensures vectors == old(vectors) + [Vector([], 0, default)]
    {
      v := |vectors|;
      vectors := vectors + [Vector([], 0, default)];
    }

    /** Shares every page; only the page table is copied. */
    method Fork(v: nat) returns (w: nat)
      requires Valid() && v < |vectors|
      modifies this
      ensures Valid() && View() == old(View()) + [old(View())[v]] && w == |old(vectors)|
      ensures memory == old(memory) && vectors == old(vectors) + [old(vectors)[v]]
    {
      w := |vectors|;
      vectors := vectors + [vectors[v]];
    }

    method Get(v: nat, index: nat) returns (value: Option<T>)
      requires Valid() && v < |vectors|
      ensures value == if index < |View()[v]| then Some(View()[v][index]) else None
    {
      if index >= vectors[v].len { return None; }
      IndexFits(vectors[v].len, index);
      value := Some(memory[vectors[v].pages[index / PAGE]][index % PAGE]);
    }

    /** Drops trailing positions; no page is written. */
    method Truncate(v: nat, len: nat)
      requires Valid() && v < |vectors|
      modifies this
      ensures Valid() && memory == old(memory) && |vectors| == |old(vectors)|
      ensures View() == old(View())[v := if len < |old(View())[v]| then old(View())[v][..len] else old(View())[v]]
      ensures forall w :: 0 <= w < |vectors| ==> vectors[w].default == old(vectors)[w].default
    {
      var vector := vectors[v];
      var shorter := if len < vector.len then len else vector.len;
      TruncatedContents(memory, vector, shorter);
      vectors := vectors[v := Vector(vector.pages[..PagesFor(shorter)], shorter, vector.default)];
      OthersShown(memory, old(vectors), memory, vectors, v);
      assert old(View())[v][..vector.len] == old(View())[v];
    }

    /** Extends the partly filled last page of a vector, in place if it is
        exclusive and on a copy otherwise. */
    method GrowTail(v: nat, len: nat) returns (pages: seq<nat>)
      requires Valid() && v < |vectors| && vectors[v].len < len <= MAX_LEN
      modifies this`memory, this`nextPage, this`position
      ensures Placed(vectors, position) && PagesPlaced(memory, position, pages)
      ensures (forall p :: p in memory ==> p < nextPage)
      ensures |pages| == |vectors[v].pages| && TailGrown(old(memory), vectors[v], memory, pages, len)
      ensures forall w :: 0 <= w < |vectors| && w != v ==> Untouched(old(memory), memory, vectors[w])
      ensures forall k :: 0 <= k < |vectors[v].pages| ==> vectors[v].pages[k] in memory
    {
      var vector := vectors[v];
      assert Holds(memory, vector);
      hide AllHold, Placed, Untouched, TailGrown;
      HeldPages(memory, vectors, position, v);
      pages := vector.pages;
      ghost var before := memory;
      NothingWritten(memory, vectors);
      if vector.len % PAGE != 0 {
        var k := vector.len / PAGE;
        var filled := FillPage(memory[pages[k]], vector.len % PAGE, VisibleLen(len, k), vector.default);
        hide FillPage;
        if Exclusive(vectors, v, k) {
          WriteExclusive(memory, vectors, v, k, filled);
          memory := memory[pages[k] := filled];
        } else {
          hide Exclusive;
          WriteFresh(memory, vectors, nextPage, filled);
          PlacedFresh(memory, vectors, position, nextPage, k);
          memory := memory[nextPage := filled];
          pages := pages[k := nextPage];
          position := position[nextPage := k];
          nextPage := nextPage + 1;
        }
      }
      TailFilled(before, vector, memory, pages, len);
    }

    /** Appends default-filled pages up to the new length. */
    method AppendPages(v: nat, len: nat, grown: seq<nat>, ghost start: map<nat, seq<T>>) returns (pages: seq<nat>)
      requires v < |vectors| && vectors[v].len < len <= MAX_LEN && Holds(start, vectors[v]) && AllHold(start, vectors)
      requires Placed(vectors, position) && PagesPlaced(memory, position, grown)
      requires (forall p :: p in memory ==> p < nextPage)
      requires |grown| == |vectors[v].pages| && TailGrown(start, vectors[v], memory, grown, len)
      requires forall w :: 0 <= w < |vectors| && w != v ==> Untouched(start, memory, vectors[w])
      requires forall k :: 0 <= k < |vectors[v].pages| ==> vectors[v].pages[k] in memory
      modifies this`memory, this`nextPage, this`position
      ensures Placed(vectors, position) && PagesPlaced(memory, position, pages)
      ensures (forall p :: p in memory ==> p < nextPage)
      ensures Grows(start, vectors[v], memory, pages, len)
      ensures forall w :: 0 <= w < |vectors| && w != v ==> Untouched(start, memory, vectors[w])
    {
      pages := grown;
      var vector := vectors[v];
      assert |grown| <= PagesFor(len);
      hide Holds, TailGrown, Untouched, Placed;
      while |pages| < PagesFor(len)
        invariant |grown| <= |pages| <= PagesFor(len)
        invariant Placed(vectors, position) && PagesPlaced(memory, position, pages)
        invariant (forall p :: p in memory ==> p < nextPage)
        invariant forall k :: 0 <= k < |vector.pages| ==> vector.pages[k] in memory
        invariant TailGrown(start, vector, memory, pages, len)
        invariant forall w :: 0 <= w < |vectors| && w != v ==> Untouched(start, memory, vectors[w])
        invariant forall k :: |grown| <= k < |pages| ==> memory[pages[k]] == Repeat(VisibleLen(len, k), vector.default)
      {
        forall w | 0 <= w < |vectors| && w != v
          ensures Untouched(start, memory[nextPage := Repeat(VisibleLen(len, |pages|), vector.default)], vectors[w])
        {
          StillUntouched(start, memory, vectors[w], nextPage, Repeat(VisibleLen(len, |pages|), vector.default));
        }
        StillGrown(start, vector, memory, pages, len, nextPage, Repeat(VisibleLen(len, |pages|), vector.default));
        StillPlaced(start, memory, vectors, v, position, nextPage, |pages|);
        memory := memory[nextPage := Repeat(VisibleLen(len, |pages|), vector.default)];
        position := position[nextPage := |pages|];
        pages := pages + [nextPage];
        nextPage := nextPage + 1;
      }
      GrownFully(start, vector, memory, pages, len);
    }

    /** Grows a vector to a larger length. */
    method Grow(v: nat, len: nat)
      requires Valid() && v < |vectors| && vectors[v].len < len <= MAX_LEN
      modifies this
      ensures Valid() && OthersKept(old(memory), old(vectors), memory, vectors, v)
      ensures vectors[v].len == len && vectors[v].default == old(vectors)[v].default
      ensures View() == old(View())[v := Resized(old(View())[v], len, old(vectors)[v].default)]
    {
      var vector := vectors[v];
      var pages := GrowTail(v, len);
      pages := AppendPages(v, len, pages, old(memory));
      GrowsContents(old(memory), vector, memory, pages, len);
      vectors := vectors[v := Vector(pages, len, vector.default)];
      OthersShown(old(memory), old(vectors), memory, vectors, v);
    }
  
    /** Resizes; fails, changing nothing, exactly when the length does not fit 32 bits. */
    method Resize(v: nat, len: nat) returns (ok: bool)
      requires Valid() && v < |vectors|
      modifies this
      ensures Valid() && ok == (len <= MAX_LEN) && |vectors| == |old(vectors)|
      ensures View() == if ok then old(View())[v := Resized(old(View())[v], len, old(vectors)[v].default)]
          else old(View())
      ensures forall w :: 0 <= w < |vectors| ==> vectors[w].default == old(vectors)[w].default
      ensures ok ==> vectors[v].len == len
    {
      if len > MAX_LEN { return false; }
      if len <= vectors[v].len {
        Truncate(v, len);
        if len == |old(View())[v]| { assert old(View())[v][..len] == old(View())[v]; }
      } else {
        Grow(v, len);
      }
      ok := true;
    }

    /** Replaces a shared page of `v` by a private copy. */
    method UniquePage(v: nat, k: nat)
      requires Valid() && v < |vectors| && k < |vectors[v].pages|
      modifies this
      ensures Valid() && View() == old(View()) && |vectors| == |old(vectors)|
      ensures |vectors[v].pages| == |old(vectors)[v].pages| && Exclusive(vectors, v, k)
      ensures vectors[v].len == old(vectors)[v].len
      ensures forall w :: 0 <= w < |vectors| ==> vectors[w].default == old(vectors)[w].default
      ensures OthersKept(old(memory), old(vectors), memory, vectors, v)
    {
      assert Holds(memory, vectors[v]);
      hide AllHold, Untouched, Contents;
      NothingWritten(memory, vectors);
      if !Exclusive(vectors, v, k) {
        hide Exclusive, Placed;
        var vector := vectors[v];
        WriteFresh(memory, vectors, nextPage, memory[vector.pages[k]]);
        PlacedFresh(memory, vectors, position, nextPage, k);
        CopiedContents(memory, memory[nextPage := memory[vector.pages[k]]], vector, k, nextPage);
        Replaced(memory, vectors, position, v, k, nextPage);
        memory := memory[nextPage := memory[vector.pages[k]]];
        vectors := vectors[v := vector.(pages := vector.pages[k := nextPage])];
        position := position[nextPage := k];
        nextPage := nextPage + 1;
        OthersShown(old(memory), old(vectors), memory, vectors, v);
      }
    }

    /** Writes into an exclusive page in place. */
    method Write(v: nat, index: nat, value: T)
      requires Valid() && v < |vectors| && index < vectors[v].len
      requires index / PAGE < |vectors[v].pages| && Exclusive(vectors, v, index / PAGE)
      modifies this`memory
      ensures Valid() && View() == old(View())[v := old(View())[v][index := value]]
    {
      IndexFits(vectors[v].len, index);
      var page := vectors[v].pages[index / PAGE];
      memory := memory[page := memory[page][index % PAGE := value]];
      forall k | 0 <= k < |vectors[v].pages| && k != index / PAGE ensures vectors[v].pages[k] != page {}
      WrittenContents(old(memory), memory, vectors[v], index, value);
      OthersShown(old(memory), vectors, memory, vectors, v);
    }

    /** Writes one value, growing intervening slots with the default, and returns
        the value that was visible there. */
    method Set(v: nat, index: nat, value: T) returns (ok: bool, previous: Option<T>)
      requires Valid() && v < |vectors|
      modifies this
      ensures Valid() && ok == (index < MAX_LEN) && |vectors| == |old(vectors)|
      ensures previous == if index < |old(View())[v]| && ok then Some(old(View())[v][index]) else None
      ensures View() == if ok then old(View())[v := Written(old(View())[v], index, value, old(vectors)[v].default)]
          else old(View())
      ensures forall w :: 0 <= w < |vectors| ==> vectors[w].default == old(vectors)[w].default
    {
      hide Holds, AllHold, Placed, Contents, Resized, Written;
      previous := Get(v, index);
      ghost var before, default := View(), vectors[v].default;
      Lengths(memory, vectors, v);
      if index + 1 > vectors[v].len {
        ok := Resize(v, index + 1);
        if !ok { return false, None; }
      }
      WrittenIs(before, v, index, value, default);
      Put(v, index, value);
      ok := true;
    }

    /** Writes a visible slot, on a private copy of its page if the page is shared. */
    method Put(v: nat, index: nat, value: T)
      requires Valid() && v < |vectors| && index < vectors[v].len
      modifies this
      ensures Valid() && |vectors| == |old(vectors)|
      ensures View() == old(View())[v := old(View())[v][index := value]]
      ensures forall w :: 0 <= w < |vectors| ==> vectors[w].default == old(vectors)[w].default
    {
      hide Holds, Exclusive, OthersKept, Placed, Contents;
      IndexFits(vectors[v].len, index);
      LengthFits(memory, vectors, v);
      UniquePage(v, index / PAGE);
      Write(v, index, value);
    }
  }

  lemma Lengths<T>(memory: map<nat, seq<T>>, vectors: seq<Vector<T>>, v: nat)
    requires AllHold(memory, vectors) && v < |vectors|
    ensures |ViewOf(memory, vectors)[v]| == vectors[v].len <= MAX_LEN
  {
    assert Holds(memory, vectors[v]);
  }

  /** Growing first and then writing is one write with default growth. */
  lemma WrittenIs<T>(view: seq<seq<T>>, v: nat, index: nat, value: T, default: T)
    requires v < |view|
    ensures var grown := if index + 1 > |view[v]| then view[v := Resized(view[v], index + 1, default)] else view;
            index < |grown[v]| && grown[v := grown[v][index := value]]
                == view[v := Written(view[v], index, value, default)]
  {
  }

  /** What a write leaves behind. */
  function Written<T>(s: seq<T>, index: nat, value: T, default: T): seq<T> {
    (if index < |s| then s else Resized(s, index + 1, default))[index := value]
  }

  lemma CopiedContents<T>(memory: map<nat, seq<T>>, memory': map<nat, seq<T>>, v: Vector<T>, k: nat, page: nat)
    requires Holds(memory, v) && k < |v.pages| && page !in memory && memory' == memory[page := memory[v.pages[k]]]
    ensures var v' := v.(pages := v.pages[k := page]);
            Holds(memory', v') && Contents(memory', v') == Contents(memory, v)
  {
    var v' := v.(pages := v.pages[k := page]);
    assert Holds(memory', v');
    forall i | 0 <= i < v.len ensures ValueAt(memory', v', i) == ValueAt(memory, v, i) {
      IndexFits(v.len, i);
    }
  }

  lemma LengthFits<T>(memory: map<nat, seq<T>>, vectors: seq<Vector<T>>, v: nat)
    requires AllHold(memory, vectors) && v < |vectors|
    ensures vectors[v].len <= MAX_LEN && |vectors[v].pages| == PagesFor(vectors[v].len)
  {
    assert Holds(memory, vectors[v]);
  }

  // ----- interleavings -----

  /** The simple object: a sequence and the value of its future slots. */
  datatype Plain<T> = Plain(values: seq<T>, default: T)

  datatype Op<T> =
    | NewOp(default: T)
    | ForkOp(v: nat)
    | SetOp(v: nat, index: nat, value: T)
    | ResizeOp(v: nat, len: nat)
    | TruncateOp(v: nat, len: nat)

  predicate LegalOp<T>(members: nat, op: Op<T>) {
    op.NewOp? || op.v < members
  }

  /** One operation on independent sequences. */
  function PlainStep<T>(family: seq<Plain<T>>, op: Op<T>): seq<Plain<T>>
    requires LegalOp(|family|, op)
  {
    match op
    case NewOp(default) => family + [Plain([], default)]
    case ForkOp(v) => family + [family[v]]
    case SetOp(v, index, value) =>
      var plain := family[v];
      if index < MAX_LEN then family[v := plain.(values := Written(plain.values, index, value, plain.default))]
      else family
    case ResizeOp(v, len) =>
      var plain := family[v];
      if len <= MAX_LEN then family[v := plain.(values := Resized(plain.values, len, plain.default))] else family
    case TruncateOp(v, len) =>
      if len < |family[v].values| then family[v := Plain(family[v].values[..len], family[v].default)] else family
  }

  predicate LegalRun<T>(family: seq<Plain<T>>, ops: seq<Op<T>>)
    decreases |ops|
  {
    ops == [] || (LegalOp(|family|, ops[0]) && LegalRun(PlainStep(family, ops[0]), ops[1..]))
  }

  function PlainRun<T>(family: seq<Plain<T>>, ops: seq<Op<T>>): seq<Plain<T>>
    requires LegalRun(family, ops)
    decreases |ops|
  {
    if ops == [] then family else PlainRun(PlainStep(family, ops[0]), ops[1..])
  }

  ghost function PlainView<T>(memory: map<nat, seq<T>>, vectors: seq<Vector<T>>): (view: seq<Plain<T>>)
    requires AllHold(memory, vectors)
    ensures |view| == |vectors|
    ensures forall v :: 0 <= v < |vectors| ==> view[v] == Plain(ViewOf(memory, vectors)[v], vectors[v].default)
  {
    seq(|vectors|, v requires 0 <= v < |vectors| => Plain(ViewOf(memory, vectors)[v], vectors[v].default))
  }

  method Perform<T>(family: Family<T>, op: Op<T>)
    requires family.Valid() && LegalOp(|family.vectors|, op)
    modifies family
    ensures family.Valid()
    ensures PlainView(family.memory, family.vectors) == PlainStep(old(PlainView(family.memory, family.vectors)), op)
  {
    hide AllHold, Placed, Holds, Contents, Resized, Written;
    match op
    case NewOp(default) => var _ := family.New(default);
    case ForkOp(v) => var _ := family.Fork(v);
    case SetOp(v, index, value) => var _, _ := family.Set(v, index, value);
    case ResizeOp(v, len) => var _ := family.Resize(v, len);
    case TruncateOp(v, len) => family.Truncate(v, len);
  }

  /** Any interleaving of operations over the family acts on every member as on
      an independent sequence. */
  method PerformAll<T>(family: Family<T>, ops: seq<Op<T>>)
    requires family.Valid() && LegalRun(PlainView(family.memory, family.vectors), ops)
    modifies family
    ensures family.Valid()
    ensures PlainView(family.memory, family.vectors) == PlainRun(old(PlainView(family.memory, family.vectors)), ops)
    ensures forall w :: 0 <= w < |old(family.View())| && Spares(ops, w) ==>
        w < |family.View()| && family.View()[w] == old(family.View())[w]
  {
    hide AllHold, Placed, PlainStep;
    ghost var start := PlainView(family.memory, family.vectors);
    forall w | 0 <= w < |start| && Spares(ops, w) ensures w < |PlainRun(start, ops)|
        && PlainRun(start, ops)[w] == start[w] {
      RunIsolated(start, ops, w);
    }
    var rest := ops;
    while rest != []
      invariant family.Valid() && LegalRun(PlainView(family.memory, family.vectors), rest)
      invariant PlainRun(PlainView(family.memory, family.vectors), rest) == PlainRun(start, ops)
      decreases |rest|
    {
      Perform(family, rest[0]);
      rest := rest[1..];
    }
  }

  /** No operation writes member `w`. */
  predicate Spares<T>(ops: seq<Op<T>>, w: nat) {
    forall i :: 0 <= i < |ops| ==> ops[i].NewOp? || ops[i].ForkOp? || ops[i].v != w
  }

  /** A run that never writes member `w` leaves it as it was, whatever happens to
      its forks and to the members it was forked from. */
  lemma {:induction false} RunIsolated<T>(family: seq<Plain<T>>, ops: seq<Op<T>>, w: nat)
    requires LegalRun(family, ops) && w < |family|
    requires Spares(ops, w)
    ensures w < |PlainRun(family, ops)| && PlainRun(family, ops)[w] == family[w]
    decreases |ops|
  {
    if ops != [] {
      assert PlainStep(family, ops[0])[w] == family[w];
      forall i | 0 <= i < |ops[1..]| ensures ops[1..][i].NewOp? || ops[1..][i].ForkOp? || ops[1..][i].v != w {
        assert ops[1..][i] == ops[i + 1];
      }
      RunIsolated(PlainStep(family, ops[0]), ops[1..], w);
    }
  }
}
