/**
  The circular list through the headers in memory, and what each pointer update of
  Lab/code/umalloc.c does to it. A ring lists its nodes in address order, starting with the
  static `base`, of size 0 and below every chunk.
 */
module FreeListMemory {
  import opened FreeList

  datatype Header = Header(ptr: int, size: int)
  type Memory = map<int, Header>

  function Ring(base: int, fl: seq<Chunk>): (ring: seq<Chunk>)
    ensures |ring| == |fl| + 1 && ring[0] == Chunk(base, 0)
  {
    [Chunk(base, 0)] + fl
  }

  ghost predicate Rising(ring: seq<Chunk>) {
    forall i, j :: 0 <= i < j < |ring| ==> ring[i].addr < ring[j].addr && ring[i].addr + ring[i].size <= ring[j].addr
  }

  function Succ(ring: seq<Chunk>, i: nat): nat {
    if i + 1 < |ring| then i + 1 else 0
  }

  ghost predicate LinkedAt(mem: Memory, ring: seq<Chunk>, i: nat)
    requires i < |ring|
  {
    ring[i].addr in mem && mem[ring[i].addr] == Header(ring[Succ(ring, i)].addr, ring[i].size)
  }

  /** One circular list, rising in address except for the wrap from the last node to base. */
  ghost predicate Linked(mem: Memory, ring: seq<Chunk>) {
    forall i :: 0 <= i < |ring| ==> LinkedAt(mem, ring, i)
  }

  ghost predicate AllAbove(base: int, fl: seq<Chunk>) {
    forall i :: 0 <= i < |fl| ==> base < fl[i].addr
  }

  lemma {:induction false} InsertAbove(base: int, fl: seq<Chunk>, k: nat, c: Chunk)
    requires AllAbove(base, fl) && k <= |fl| && base < c.addr
    ensures AllAbove(base, InsertAt(fl, k, c))
  {
  }

  lemma {:induction false} JoinAbove(base: int, fl: seq<Chunk>, i: int)
    requires AllAbove(base, fl)
    ensures AllAbove(base, JoinAt(fl, i))
  {
  }

  lemma {:induction false} RingRises(base: int, fl: seq<Chunk>)
    requires Ordered(fl) && AllAbove(base, fl)
    ensures Rising(Ring(base, fl))
  {
    var ring := Ring(base, fl);
    forall i, j | 0 <= i < j < |ring|
      ensures ring[i].addr < ring[j].addr && ring[i].addr + ring[i].size <= ring[j].addr
    {
      assert ring[j] == fl[j - 1];
      if i > 0 {
        assert ring[i] == fl[i - 1];
      }
    }
  }

  /** Where a chunk that overlaps no free chunk belongs. */
  ghost function Position(fl: seq<Chunk>, c: Chunk): (k: nat)
    ensures k <= |fl|
  {
    if fl == [] || c.addr < fl[0].addr then 0 else 1 + Position(fl[1..], c)
  }

  lemma {:induction false} PositionFits(fl: seq<Chunk>, c: Chunk)
    requires Ordered(fl) && c.size >= 1 && forall i :: 0 <= i < |fl| ==> fl[i].Apart(c)
    ensures FitsAt(fl, Position(fl, c), c)
  {
    if fl != [] && c.addr >= fl[0].addr {
      PositionFits(fl[1..], c);
      var k := Position(fl[1..], c);
      forall i | 0 <= i < k + 1
        ensures fl[i].addr + fl[i].size <= c.addr
      {
        assert i > 0 ==> fl[i] == fl[1..][i - 1];
      }
      forall i | k + 1 <= i < |fl|
        ensures c.addr + c.size <= fl[i].addr
      {
        assert fl[i] == fl[1..][i - 1];
      }
    }
  }

  /** The test that ends the search in free, at a node `p` with successor `q`. */
  predicate StopsAt(p: int, q: int, bp: int) {
    (bp > p && bp < q) || (p >= q && (bp > p || bp < q))
  }

  /** The search in free stops at the last node below the freed chunk, and only there. */
  lemma {:induction false} SearchStops(ring: seq<Chunk>, k: nat, bp: int, i: nat)
    requires Rising(ring) && k < |ring| && i < |ring| && ring[k].addr < bp
    requires k + 1 < |ring| ==> bp < ring[k + 1].addr
    ensures StopsAt(ring[i].addr, ring[Succ(ring, i)].addr, bp) <==> i == k
  {
    assert ring[0].addr <= ring[k].addr;
    assert i < k ==> ring[i + 1].addr <= ring[k].addr;
    assert i > k ==> ring[k + 1].addr <= ring[i].addr;
  }

  // ---- updates ----

  lemma {:induction false} LinkInsert(mem: Memory, ring: seq<Chunk>, k: nat, c: Chunk, m: Memory)
    requires Rising(ring) && Linked(mem, ring) && k < |ring|
    requires forall i :: 0 <= i < |ring| ==> ring[i].addr != c.addr
    requires m == mem[c.addr := Header(ring[Succ(ring, k)].addr, c.size)][ring[k].addr := Header(c.addr, ring[k].size)]
    ensures Linked(m, InsertAt(ring, k + 1, c))
  {
    var g := InsertAt(ring, k + 1, c);
    forall i | 0 <= i < |g|
      ensures LinkedAt(m, g, i)
    {
      if i <= k {
        assert LinkedAt(mem, ring, i);
        assert g[i] == ring[i];
      } else if i == k + 1 {
        assert g[i] == c;
        assert g[Succ(g, i)] == ring[Succ(ring, k)];
      } else {
        assert LinkedAt(mem, ring, i - 1);
        assert g[i] == ring[i - 1];
        assert g[Succ(g, i)] == ring[Succ(ring, i - 1)];
      }
    }
  }

  /** `g` is `ring` with nodes i and i + 1 merged into one. */
  ghost predicate Merged(ring: seq<Chunk>, i: nat, g: seq<Chunk>) {
    && i + 1 < |ring| && |g| == |ring| - 1
    && (forall j :: 0 <= j < i ==> g[j] == ring[j])
    && g[i] == Chunk(ring[i].addr, ring[i].size + ring[i + 1].size)
    && (forall j :: i < j < |g| ==> g[j] == ring[j + 1])
  }

  lemma {:induction false} JoinMerges(ring: seq<Chunk>, i: nat)
    requires Touch(ring, i)
    ensures Merged(ring, i, JoinAt(ring, i))
  {
    var low, both, high := ring[..i], [Chunk(ring[i].addr, ring[i].size + ring[i + 1].size)], ring[i + 2..];
    var g := JoinAt(ring, i);
    assert g == low + both + high;
    assert g[i] == both[0];
    forall j | i < j < |g|
      ensures g[j] == ring[j + 1]
    {
      assert g[j] == high[j - (i + 1)];
    }
  }

  lemma {:induction false} LinkJoin(mem: Memory, ring: seq<Chunk>, i: nat, g: seq<Chunk>, m: Memory)
    requires Rising(ring) && Linked(mem, ring) && Merged(ring, i, g) && ring[i + 1].addr in mem
    requires m == mem[ring[i].addr := Header(mem[ring[i + 1].addr].ptr, ring[i].size + mem[ring[i + 1].addr].size)]
    ensures Linked(m, g)
  {
    forall j | 0 <= j < |g|
      ensures LinkedAt(m, g, j)
    {
      if j < i {
        assert LinkedAt(mem, ring, j);
        assert g[j + 1].addr == ring[j + 1].addr;
      } else {
        assert LinkedAt(mem, ring, j + 1);
        assert g[Succ(g, j)].addr == ring[Succ(ring, j + 1)].addr by {
          assert g[0].addr == ring[0].addr;
        }
      }
    }
  }

  lemma {:induction false} LinkRemove(mem: Memory, ring: seq<Chunk>, i: nat, m: Memory)
    requires Rising(ring) && Linked(mem, ring) && i + 1 < |ring|
    requires ring[i].addr in mem && ring[i + 1].addr in mem
    requires m == mem[ring[i].addr := Header(mem[ring[i + 1].addr].ptr, mem[ring[i].addr].size)]
    ensures Linked(m, ring[..i + 1] + ring[i + 2..])
  {
    var g := ring[..i + 1] + ring[i + 2..];
    assert LinkedAt(mem, ring, i + 1);
    assert LinkedAt(mem, ring, i);
    forall j | 0 <= j < |g|
      ensures LinkedAt(m, g, j)
    {
      if j < i {
        assert LinkedAt(mem, ring, j);
        assert g[j] == ring[j] && g[j + 1] == ring[j + 1];
      } else if j == i {
        assert g[j] == ring[i];
        assert g[Succ(g, j)] == ring[Succ(ring, i + 1)];
      } else {
        assert LinkedAt(mem, ring, j + 1);
        assert g[j] == ring[j + 1];
        assert g[Succ(g, j)] == ring[Succ(ring, j + 1)];
      }
    }
  }

  lemma {:induction false} LinkShrink(mem: Memory, ring: seq<Chunk>, i: nat, n: int, m: Memory)
    requires Rising(ring) && Linked(mem, ring) && i < |ring| && ring[i].addr in mem
    requires m == mem[ring[i].addr := Header(mem[ring[i].addr].ptr, mem[ring[i].addr].size - n)]
    ensures Linked(m, ring[i := Chunk(ring[i].addr, ring[i].size - n)])
  {
    var g := ring[i := Chunk(ring[i].addr, ring[i].size - n)];
    forall j | 0 <= j < |g|
      ensures LinkedAt(m, g, j)
    {
      assert LinkedAt(mem, ring, j);
      assert g[Succ(g, j)].addr == ring[Succ(ring, j)].addr;
    }
  }

  /** A write to an address that is no node leaves the list alone. */
  lemma {:induction false} LinkElsewhere(mem: Memory, ring: seq<Chunk>, a: int, h: Header)
    requires Linked(mem, ring) && forall i :: 0 <= i < |ring| ==> ring[i].addr != a
    ensures Linked(mem[a := h], ring)
  {
    var m := mem[a := h];
    forall i | 0 <= i < |ring|
      ensures LinkedAt(m, ring, i)
    {
      assert LinkedAt(mem, ring, i);
    }
  }

  // ---- free's two pointer updates, in the order the code makes them ----

  /** Link `bp` to what lies above it, merging if they touch. */
  function LinkUpward(mem: Memory, q: int, bp: int, size: int): Header
    requires q in mem
  {
    if bp + size == q then Header(mem[q].ptr, size + mem[q].size) else Header(q, size)
  }

  /** Link `p`, the node below, to `bp`, merging if they touch. */
  function LinkDownward(mem: Memory, p: int, bp: int): Header
    requires p in mem && bp in mem
  {
    if p + mem[p].size == bp then Header(mem[bp].ptr, mem[p].size + mem[bp].size) else Header(bp, mem[p].size)
  }

  lemma {:induction false} RingInsert(base: int, fl: seq<Chunk>, k: nat, c: Chunk)
    requires k <= |fl|
    ensures InsertAt(Ring(base, fl), k + 1, c) == Ring(base, InsertAt(fl, k, c))
  {
  }

  lemma {:induction false} RingJoin(base: int, fl: seq<Chunk>, i: int)
    requires 0 <= i
    ensures Touch(Ring(base, fl), i + 1) <==> Touch(fl, i)
    ensures JoinAt(Ring(base, fl), i + 1) == Ring(base, JoinAt(fl, i))
  {
    var ring := Ring(base, fl);
    if Touch(fl, i) {
      assert ring[..i + 1] == Ring(base, fl[..i]);
      assert ring[i + 3..] == fl[i + 2..];
    }
  }

  /** The ring of `fl` in memory. */
  ghost predicate InMemory(mem: Memory, base: int, fl: seq<Chunk>) {
    Ordered(fl) && AllAbove(base, fl) && Rising(Ring(base, fl)) && Linked(mem, Ring(base, fl))
  }

  /** Node k, the last one below `c`, is below `c`, and no node is at `c`. */
  lemma {:induction false} NodesAvoid(base: int, fl: seq<Chunk>, k: nat, c: Chunk)
    requires FitsAt(fl, k, c) && base < c.addr && Ordered(fl)
    ensures var ring := Ring(base, fl); forall i :: 0 <= i < |ring| ==> ring[i].addr != c.addr
    ensures Ring(base, fl)[k].addr < c.addr && (k < |fl| ==> c.addr < Ring(base, fl)[k + 1].addr)
  {
    var ring := Ring(base, fl);
    forall i | 0 <= i < |ring|
      ensures ring[i].addr != c.addr
    {
      assert i > 0 ==> ring[i] == fl[i - 1];
    }
    assert k > 0 ==> ring[k] == fl[k - 1];
    assert k < |fl| ==> ring[k + 1] == fl[k];
  }

  /** The ring of `fl` once `c` is linked in behind node k. */
  lemma {:induction false} LinkedIn(mem: Memory, base: int, fl: seq<Chunk>, k: nat, c: Chunk, m: Memory)
    requires Canonical(fl) && InMemory(mem, base, fl) && FitsAt(fl, k, c) && base < c.addr
    requires var ring := Ring(base, fl);
             m == mem[c.addr := Header(ring[Succ(ring, k)].addr, c.size)][ring[k].addr := Header(c.addr, ring[k].size)]
    ensures InMemory(m, base, InsertAt(fl, k, c))
  {
    NodesAvoid(base, fl, k, c);
    LinkInsert(mem, Ring(base, fl), k, c, m);
    RingInsert(base, fl, k, c);
    InsertOrdered(fl, k, c);
    InsertAbove(base, fl, k, c);
    RingRises(base, InsertAt(fl, k, c));
  }

  /** Merging two touching nodes in memory. */
  lemma {:induction false} JoinedIn(mem: Memory, base: int, fl: seq<Chunk>, i: nat, m: Memory)
    requires InMemory(mem, base, fl) && Touch(fl, i) && fl[i + 1].addr in mem
    requires m == mem[fl[i].addr := Header(mem[fl[i + 1].addr].ptr, fl[i].size + mem[fl[i + 1].addr].size)]
    ensures InMemory(m, base, JoinAt(fl, i))
  {
    RingJoin(base, fl, i);
    JoinMerges(Ring(base, fl), i + 1);
    assert Ring(base, fl)[i + 1] == fl[i] && Ring(base, fl)[i + 2] == fl[i + 1];
    LinkJoin(mem, Ring(base, fl), i + 1, Ring(base, JoinAt(fl, i)), m);
    JoinOrdered(fl, i);
    JoinAbove(base, fl, i);
    RingRises(base, JoinAt(fl, i));
  }

  /** The code's test for touching the chunk above is the test on the list. */
  lemma {:induction false} TouchesAbove(base: int, fl: seq<Chunk>, k: nat, c: Chunk, q: int)
    requires FitsAt(fl, k, c) && base < c.addr && q == Ring(base, fl)[Succ(Ring(base, fl), k)].addr
    ensures Touch(InsertAt(fl, k, c), k) <==> c.addr + c.size == q
    ensures k < |fl| ==> q == InsertAt(fl, k, c)[k + 1].addr
    ensures InsertAt(fl, k, c)[k] == c
  {
    var ring, g := Ring(base, fl), InsertAt(fl, k, c);
    assert g[k] == c;
    if k < |fl| {
      assert g[k + 1] == fl[k] && ring[k + 1] == fl[k];
    }
  }

  /** Insert and merge upwards. */
  lemma {:induction false} LinkedUp(mem: Memory, base: int, fl: seq<Chunk>, k: nat, c: Chunk, p: Chunk, q: int,
                                    m: Memory)
    requires Canonical(fl) && InMemory(mem, base, fl) && FitsAt(fl, k, c) && base < c.addr
    requires p == Ring(base, fl)[k] && q == Ring(base, fl)[Succ(Ring(base, fl), k)].addr && q in mem
    requires m == mem[c.addr := LinkUpward(mem, q, c.addr, c.size)][p.addr := Header(c.addr, p.size)]
    ensures InMemory(m, base, JoinAt(InsertAt(fl, k, c), k))
  {
    assert Ordered(fl);
    hide InMemory, Canonical, Ordered, FitsAt;
    var g := InsertAt(fl, k, c);
    var m1 := mem[c.addr := Header(q, c.size)][p.addr := Header(c.addr, p.size)];
    LinkedIn(mem, base, fl, k, c, m1);
    TouchesAbove(base, fl, k, c, q);
    NodesAvoid(base, fl, k, c);
    if Touch(g, k) {
      assert m1[q] == mem[q];
      assert m == m1[c.addr := Header(m1[q].ptr, c.size + m1[q].size)];
      JoinedIn(m1, base, g, k, m);
    }
  }

  /** The list after the upward merge keeps everything below `c` and has `c` at k. */
  lemma {:induction false} UpwardShape(fl: seq<Chunk>, k: nat, c: Chunk)
    requires Canonical(fl) && FitsAt(fl, k, c)
    ensures var h := JoinAt(InsertAt(fl, k, c), k);
            Ordered(h) && k < |h| && h[k].addr == c.addr && forall i :: 0 <= i < k ==> h[i] == fl[i]
  {
    InsertOrdered(fl, k, c);
    JoinOrdered(InsertAt(fl, k, c), k);
  }

  /** Node k stays where it is when `c` is freed behind it. */
  lemma {:induction false} NodeStays(base: int, fl: seq<Chunk>, k: nat, c: Chunk)
    requires Canonical(fl) && FitsAt(fl, k, c)
    ensures k <= |Coalesce(fl, k, c)| && Ring(base, Coalesce(fl, k, c))[k].addr == Ring(base, fl)[k].addr
  {
    UpwardShape(fl, k, c);
    var h := JoinAt(InsertAt(fl, k, c), k);
    if k > 0 {
      assert Ring(base, fl)[k] == fl[k - 1];
      assert Ring(base, JoinAt(h, k - 1))[k] == JoinAt(h, k - 1)[k - 1];
    }
  }

  /** The code's test for touching the chunk below is the test on the list. */
  lemma {:induction false} TouchesBelow(base: int, h: seq<Chunk>, k: nat, c: int, p: Chunk)
    requires k < |h| && h[k].addr == c && p == Ring(base, h)[k] && p.addr < c
    ensures Touch(h, k - 1) <==> p.addr + p.size == c
    ensures k > 0 ==> p == h[k - 1]
  {
    if k > 0 {
      assert Ring(base, h)[k] == h[k - 1];
    }
  }

  /** Merge downwards, or not, behind node k. */
  lemma {:induction false} LinkedDown(m1: Memory, base: int, h: seq<Chunk>, k: nat, c: int, p: Chunk, m: Memory,
                                      m2: Memory)
    requires k < |h| && h[k].addr == c && p == Ring(base, h)[k] && p.addr < c && base < c
    requires p.addr in m1 && m1[p.addr].size == p.size && c in m1
    requires m == m1[p.addr := Header(c, p.size)] && InMemory(m, base, h)
    requires m2 == m1[p.addr := LinkDownward(m1, p.addr, c)]
    ensures InMemory(m2, base, JoinAt(h, k - 1))
  {
    hide InMemory;
    TouchesBelow(base, h, k, c, p);
    if Touch(h, k - 1) {
      assert m[c] == m1[c];
      assert m2 == m[p.addr := Header(m[c].ptr, p.size + m[c].size)];
      hide LinkDownward, Ring;
      JoinedIn(m, base, h, k - 1, m2);
    } else {
      assert JoinAt(h, k - 1) == h;
    }
  }

  /** Free's updates turn the ring of `fl` into the ring of the coalesced list. */
  lemma {:induction false} FreeLinks(mem: Memory, base: int, fl: seq<Chunk>, k: nat, c: Chunk, p: Chunk, q: int,
                                     m1: Memory, m2: Memory)
    requires Canonical(fl) && InMemory(mem, base, fl) && FitsAt(fl, k, c) && base < c.addr
    requires p == Ring(base, fl)[k] && q == Ring(base, fl)[Succ(Ring(base, fl), k)].addr && q in mem
    requires p.addr in mem && mem[p.addr].size == p.size
    requires m1 == mem[c.addr := LinkUpward(mem, q, c.addr, c.size)]
    requires m2 == m1[p.addr := LinkDownward(m1, p.addr, c.addr)]
    ensures InMemory(m2, base, Coalesce(fl, k, c))
  {
    var h := JoinAt(InsertAt(fl, k, c), k);
    var m := m1[p.addr := Header(c.addr, p.size)];
    LinkedUp(mem, base, fl, k, c, p, q, m);
    UpwardShape(fl, k, c);
    NodesAvoid(base, fl, k, c);
    assert p == Ring(base, h)[k] by {
      assert k > 0 ==> Ring(base, h)[k] == h[k - 1] && p == fl[k - 1];
    }
    LinkedDown(m1, base, h, k, c.addr, p, m, m2);
  }
}
