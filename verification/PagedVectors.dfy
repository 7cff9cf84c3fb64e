/** Copy-on-write paged vectors. Forks share pages; a page is written in place
    only while one vector holds it, so every member of a family behaves as its
    own sequence. */
module PagedVectors {

  const PAGE: nat := 4096
  const MAX_LEN: nat := 0xFFFF_FFFF

  /** `pages` are page identities: the shared pointers of the page table. */
  datatype Vector<T> = Vector(pages: seq<nat>, len: nat, default: T)

  function PagesFor(len: nat): nat { (len + PAGE - 1) / PAGE }

  /** How many values of page `k` a vector of length `len` shows. */
  function VisibleLen(len: nat, k: nat): nat {
    if len < k * PAGE then 0 else if len - k * PAGE < PAGE then len - k * PAGE else PAGE
  }

  function Repeat<T>(n: nat, value: T): (s: seq<T>)
    ensures |s| == n && forall i :: 0 <= i < n ==> s[i] == value
  {
    seq(n, _ => value)
  }

  // ----- pages and contents -----

  /** A page may hold more than a vector shows, never less. */
  predicate Holds<T>(memory: map<nat, seq<T>>, v: Vector<T>) {
    && v.len <= MAX_LEN && |v.pages| == PagesFor(v.len)
    && (forall k :: 0 <= k < |v.pages| ==>
          v.pages[k] in memory && VisibleLen(v.len, k) <= |memory[v.pages[k]]| <= PAGE)
  }

  lemma IndexFits(len: nat, i: nat)
    requires i < len
    ensures i / PAGE < PagesFor(len) && i % PAGE < VisibleLen(len, i / PAGE)
  {
  }

  function ValueAt<T>(memory: map<nat, seq<T>>, v: Vector<T>, i: nat): T
    requires Holds(memory, v) && i < v.len
  {
    IndexFits(v.len, i);
    memory[v.pages[i / PAGE]][i % PAGE]
  }

  /** The sequence a vector stands for. */
  function Contents<T>(memory: map<nat, seq<T>>, v: Vector<T>): (s: seq<T>)
    requires Holds(memory, v)
    ensures |s| == v.len && forall i :: 0 <= i < v.len ==> s[i] == ValueAt(memory, v, i)
  {
    seq(v.len, i requires 0 <= i < v.len => ValueAt(memory, v, i))
  }

  lemma ContentsFrame<T>(memory: map<nat, seq<T>>, memory': map<nat, seq<T>>, v: Vector<T>)
    requires Holds(memory, v)
    requires forall k :: 0 <= k < |v.pages| ==> v.pages[k] in memory' && memory'[v.pages[k]] == memory[v.pages[k]]
    ensures Holds(memory', v) && Contents(memory', v) == Contents(memory, v)
  {
    forall i | 0 <= i < v.len ensures Holds(memory', v) && ValueAt(memory', v, i) == ValueAt(memory, v, i) {
      IndexFits(v.len, i);
    }
  }

  // ----- growth -----

  /** Makes positions `from..to` of a page the default, extending it if needed. */
  function FillPage<T>(values: seq<T>, from: nat, to: nat, default: T): (r: seq<T>)
    requires from <= |values| && from <= to
    ensures |r| == (if |values| < to then to else |values|)
    ensures forall i :: 0 <= i < |r| ==> r[i] == if from <= i < to then default else values[i]
  {
    values[..from] + Repeat(to - from, default) + (if |values| <= to then [] else values[to..])
  }

  /** What growing leaves behind: the old values, then defaults. */
  function Resized<T>(s: seq<T>, len: nat, default: T): seq<T> {
    if len <= |s| then s[..len] else s + Repeat(len - |s|, default)
  }

  /** The memory and page table after growth show the old values and then defaults. */
  ghost predicate Grows<T>(memory: map<nat, seq<T>>, v: Vector<T>, memory': map<nat, seq<T>>, pages': seq<nat>,
                           len: nat)
    requires Holds(memory, v) && v.len < len
  {
    && |pages'| == PagesFor(len)
    && (forall k :: 0 <= k < |pages'| ==> pages'[k] in memory')
    && (forall k :: 0 <= k < v.len / PAGE ==> memory'[pages'[k]] == memory[v.pages[k]])
    && (v.len % PAGE != 0 ==>
          memory'[pages'[v.len / PAGE]] ==
          FillPage(memory[v.pages[v.len / PAGE]], v.len % PAGE, VisibleLen(len, v.len / PAGE), v.default))
    && (forall k :: |v.pages| <= k < |pages'| ==> memory'[pages'[k]] == Repeat(VisibleLen(len, k), v.default))
  }

  lemma GrowsContents<T>(memory: map<nat, seq<T>>, v: Vector<T>, memory': map<nat, seq<T>>, pages': seq<nat>, len: nat)
    requires Holds(memory, v) && v.len < len <= MAX_LEN && Grows(memory, v, memory', pages', len)
    ensures var v' := Vector(pages', len, v.default);
            Holds(memory', v') && Contents(memory', v') == Resized(Contents(memory, v), len, v.default)
  {
    var v' := Vector(pages', len, v.default);
    assert Holds(memory', v') by {
      forall k | 0 <= k < |pages'| ensures VisibleLen(len, k) <= |memory'[pages'[k]]| <= PAGE {
        if k < v.len / PAGE { assert VisibleLen(v.len, k) == PAGE; }
      }
    }
    forall i | 0 <= i < len
      ensures ValueAt(memory', v', i) == Resized(Contents(memory, v), len, v.default)[i]
    {
      IndexFits(len, i);
      if i < v.len { IndexFits(v.len, i); }
      GrownValue(memory, v, memory', pages', len, i);
    }
  }

  lemma GrownValue<T>(memory: map<nat, seq<T>>, v: Vector<T>, memory': map<nat, seq<T>>, pages': seq<nat>, len: nat,
                      i: nat)
    requires Holds(memory, v) && v.len < len <= MAX_LEN && Grows(memory, v, memory', pages', len) && i < len
    requires Holds(memory', Vector(pages', len, v.default))
    ensures ValueAt(memory', Vector(pages', len, v.default), i)
        == if i < v.len then ValueAt(memory, v, i) else v.default
  {
    IndexFits(len, i);
    if i < v.len { IndexFits(v.len, i); }
    var k := i / PAGE;
    if k < v.len / PAGE {
    } else if k == v.len / PAGE && v.len % PAGE != 0 {
    } else {
      assert k >= |v.pages|;
    }
  }

  lemma TruncatedContents<T>(memory: map<nat, seq<T>>, v: Vector<T>, len: nat)
    requires Holds(memory, v) && len <= v.len
    ensures var v' := Vector(v.pages[..PagesFor(len)], len, v.default);
            Holds(memory, v') && Contents(memory, v') == Contents(memory, v)[..len]
  {
    var v' := Vector(v.pages[..PagesFor(len)], len, v.default);
    assert Holds(memory, v');
    forall i | 0 <= i < len ensures ValueAt(memory, v', i) == ValueAt(memory, v, i) {
      IndexFits(len, i);
      IndexFits(v.len, i);
    }
  }

  lemma WrittenContents<T>(memory: map<nat, seq<T>>, memory': map<nat, seq<T>>, v: Vector<T>, index: nat, value: T)
    requires Holds(memory, v) && index < v.len
    requires forall k :: 0 <= k < |v.pages| ==> v.pages[k] in memory'
    requires forall k :: 0 <= k < |v.pages| && k != index / PAGE ==> memory'[v.pages[k]] == memory[v.pages[k]]
    requires index / PAGE < |v.pages| && index % PAGE < |memory[v.pages[index / PAGE]]|
    requires memory'[v.pages[index / PAGE]] == memory[v.pages[index / PAGE]][index % PAGE := value]
    ensures Holds(memory', v) && Contents(memory', v) == Contents(memory, v)[index := value]
  {
    assert Holds(memory', v);
    forall i | 0 <= i < v.len
      ensures ValueAt(memory', v, i) == if i == index then value else ValueAt(memory, v, i)
    {
      IndexFits(v.len, i);
    }
  }
}
