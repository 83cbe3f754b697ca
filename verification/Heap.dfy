/**
  malloc, free and morecore of Lab/code/umalloc.c. Addresses count header-sized units
  (8 bytes); `base` is the static header below the heap. `sbrk` is a parameter: the address it
  would return, above all memory obtained so far, or None.

  `Valid` is the heap invariant: one circular list in address order with a single wrap, fully
  coalesced, and every unit ever obtained from sbrk in exactly one free or live chunk.
 */
module Heap {
  import opened Options
  import opened Sums
  import opened FreeList
  import opened FreeListMemory

  const MINCORE := 4096

  /** Units for a request: header plus payload, in 32-bit arithmetic. */
  function Units(nbytes: nat): (n: nat)
    ensures n >= 1
  {
    (nbytes + 7) % 0x1_0000_0000 / 8 + 1
  }

  /** The payload holds the request exactly when the rounding addition does not wrap. */
  lemma {:induction false} UnitsEnough(nbytes: nat)
    requires nbytes < 0x1_0000_0000
    ensures (Units(nbytes) - 1) * 8 >= nbytes <==> nbytes <= 0xFFFF_FFF8
    ensures nbytes <= 0xFFFF_FFF8 ==> (Units(nbytes) - 1) * 8 < nbytes + 8
    ensures Units(0xFFFF_FFFF) == 1
  {
    if nbytes <= 0xFFFF_FFF8 {
      assert (nbytes + 7) % 0x1_0000_0000 == nbytes + 7;
    } else {
      assert (nbytes + 7) % 0x1_0000_0000 == nbytes + 7 - 0x1_0000_0000;
    }
  }

  /** morecore passes nu * 8, truncated to 32 bits, to sbrk, which takes a signed int. */
  function SbrkArgument(nu: nat): int {
    var x := nu * 8 % 0x1_0000_0000;
    if x >= 0x8000_0000 then x - 0x1_0000_0000 else x
  }

  /** sbrk is asked for the units morecore wants exactly when they are fewer than 2^28. */
  lemma {:induction false} SbrkAsksRight(nu: nat)
    requires nu < 0x1_0000_0000
    ensures SbrkArgument(nu) == nu * 8 <==> nu < 0x1000_0000
    ensures SbrkArgument(0x1000_0001) < 0
  {
  }

  function Max(a: nat, b: nat): nat {
    if a < b then b else a
  }

  // ---- who owns a unit ----

  ghost predicate LiveHas(live: map<int, nat>, u: int) {
    exists a: int :: a in live && a <= u < a + live[a]
  }

  ghost predicate LiveApart(live: map<int, nat>) {
    forall a: int, b: int :: a in live && b in live && a < b ==> a + live[a] <= b
  }

  /** Every unit of the arena is free or live, never both, and nothing else is. */
  ghost predicate Partition(fl: seq<Chunk>, live: map<int, nat>, arena: set<int>) {
    && LiveApart(live)
    && (forall u :: u in arena <==> Covers(fl, u) || LiveHas(live, u))
    && (forall u :: Covers(fl, u) ==> !LiveHas(live, u))
  }

  /** Allocated chunks carry their size in their header, above base. */
  ghost predicate HeadersOK(mem: Memory, base: int, live: map<int, nat>) {
    forall a: int :: a in live ==> base < a && live[a] >= 1 && a in mem && mem[a].size == live[a]
  }

  lemma {:induction false} LiveSplit(live: map<int, nat>, a: int, u: int)
    requires LiveApart(live) && a in live
    ensures LiveHas(live, u) <==> LiveHas(live - {a}, u) || Chunk(a, live[a]).Has(u)
    ensures !(LiveHas(live - {a}, u) && Chunk(a, live[a]).Has(u))
  {
    var rest := live - {a};
    if LiveHas(rest, u) {
      var b: int :| b in rest && b <= u < b + rest[b];
      assert b in live && b <= u < b + live[b];
      assert b != a;
      assert a < b ==> a + live[a] <= b;
      assert b < a ==> b + live[b] <= a;
    }
    if LiveHas(live, u) {
      var b: int :| b in live && b <= u < b + live[b];
      if b != a {
        assert b in rest && b <= u < b + rest[b];
      }
    }
    if Chunk(a, live[a]).Has(u) {
      assert a in live && a <= u < a + live[a];
    }
  }

  /** A live chunk overlaps no free chunk. */
  lemma {:induction false} LiveIsApart(fl: seq<Chunk>, live: map<int, nat>, arena: set<int>, a: int, i: nat)
    requires Partition(fl, live, arena) && Ordered(fl) && a in live && live[a] >= 1 && i < |fl|
    ensures fl[i].Apart(Chunk(a, live[a])) && fl[i].addr != a
  {
    var c := Chunk(a, live[a]);
    if !fl[i].Apart(c) {
      var u := if fl[i].addr < a then a else fl[i].addr;
      assert fl[i].Has(u);
      assert a <= u < a + live[a];
      assert Covers(fl, u) && LiveHas(live, u);
    }
  }

  lemma {:induction false} FreePartition(fl: seq<Chunk>, live: map<int, nat>, arena: set<int>, k: nat, a: int)
    requires Partition(fl, live, arena) && Canonical(fl) && a in live
    requires FitsAt(fl, k, Chunk(a, live[a]))
    ensures Partition(Coalesce(fl, k, Chunk(a, live[a])), live - {a}, arena)
    ensures Total(Coalesce(fl, k, Chunk(a, live[a]))) + MapTotal(live - {a}) == Total(fl) + MapTotal(live)
  {
    var c := Chunk(a, live[a]);
    var fl', live' := Coalesce(fl, k, c), live - {a};
    forall u
      ensures Covers(fl', u) <==> Covers(fl, u) || c.Has(u)
      ensures LiveHas(live, u) <==> LiveHas(live', u) || c.Has(u)
      ensures !(LiveHas(live', u) && c.Has(u))
    {
      CoalesceCovers(fl, k, c, u);
      LiveSplit(live, a, u);
    }
    CoalesceTotal(fl, k, c);
    TotalRemove(live, a);
  }

  /** Adding a live chunk that lies apart from the others. */
  lemma {:induction false} LiveAdd(live: map<int, nat>, c: Chunk, n: nat)
    requires LiveApart(live) && c.size == n >= 1
    requires forall a: int :: a in live ==> live[a] >= 1 && Chunk(a, live[a]).Apart(c)
    ensures c.addr !in live && LiveApart(live[c.addr := n])
    ensures forall u :: LiveHas(live[c.addr := n], u) <==> LiveHas(live, u) || c.Has(u)
    ensures MapTotal(live[c.addr := n]) == MapTotal(live) + n
  {
    hide MapTotal;
    var live' := live[c.addr := n];
    assert c.addr !in live;
    assert LiveApart(live');
    assert live' - {c.addr} == live;
    forall u
      ensures LiveHas(live', u) <==> LiveHas(live, u) || c.Has(u)
    {
      LiveSplit(live', c.addr, u);
    }
    TotalUpdate(live, c.addr, n);
    assert live - {c.addr} == live;
  }

  lemma {:induction false} CarvePartition(fl: seq<Chunk>, live: map<int, nat>, arena: set<int>, i: nat, n: nat,
                                          c: Chunk)
    requires Partition(fl, live, arena) && Canonical(fl) && i < |fl| && 1 <= n <= fl[i].size
    requires c == Carved(fl, i, n) && forall a: int :: a in live ==> live[a] >= 1
    ensures c.addr !in live
    ensures Partition(Carve(fl, i, n), live[c.addr := n], arena)
    ensures Total(Carve(fl, i, n)) + MapTotal(live[c.addr := n]) == Total(fl) + MapTotal(live)
  {
    forall a: int | a in live
      ensures Chunk(a, live[a]).Apart(c)
    {
      LiveIsApart(fl, live, arena, a, i);
    }
    LiveAdd(live, c, n);
    var r := Carve(fl, i, n);
    forall u
      ensures Covers(r, u) <==> Covers(fl, u) && !c.Has(u)
      ensures c.Has(u) ==> Covers(fl, u)
    {
      CarveCovers(fl, i, n, u);
      if c.Has(u) {
        assert fl[i].Has(u);
      }
    }
    CarveTotal(fl, i, n);
  }

  function Span(c: Chunk): (s: set<int>)
    ensures forall u :: u in s <==> c.Has(u)
  {
    set u: int | c.addr <= u < c.addr + c.size && c.Has(u)
  }

  lemma {:induction false} GrowPartition(fl: seq<Chunk>, live: map<int, nat>, arena: set<int>, c: Chunk, nu: nat)
    requires Partition(fl, live, arena) && c.size == nu >= 1
    requires forall a: int :: a in live ==> live[a] >= 1
    requires forall u :: u in arena ==> u < c.addr
    ensures c.addr !in live
    ensures Partition(fl, live[c.addr := nu], arena + Span(c))
    ensures MapTotal(live[c.addr := nu]) == MapTotal(live) + nu
  {
    forall a: int | a in live
      ensures Chunk(a, live[a]).Apart(c)
    {
      assert LiveHas(live, a + live[a] - 1);
    }
    LiveAdd(live, c, nu);
  }

  /** Core above everything obtained so far goes to the end of the list. */
  lemma {:induction false} CoreFitsAtEnd(fl: seq<Chunk>, c: Chunk)
    requires Ordered(fl) && c.size >= 1 && forall u :: Covers(fl, u) ==> u < c.addr
    ensures Position(fl, c) == |fl|
    ensures var r := Coalesce(fl, |fl|, c); r != [] && r[|r| - 1].size >= c.size
  {
    forall i | 0 <= i < |fl|
      ensures fl[i].addr + fl[i].size <= c.addr
    {
      var u := fl[i].addr + fl[i].size - 1;
      assert fl[i].Has(u);
      assert Covers(fl, u);
    }
    PositionAtEnd(fl, c);
    var g := InsertAt(fl, |fl|, c);
    assert !Touch(g, |fl|);
    assert g[|fl|] == c;
  }

  lemma {:induction false} PositionAtEnd(fl: seq<Chunk>, c: Chunk)
    requires forall i :: 0 <= i < |fl| ==> fl[i].addr <= c.addr
    ensures Position(fl, c) == |fl|
  {
    if fl != [] {
      PositionAtEnd(fl[1..], c);
    }
  }

  ghost predicate AtNode(base: int, fl: seq<Chunk>, freep: int) {
    exists i :: 0 <= i <= |fl| && Ring(base, fl)[i].addr == freep
  }

  /** The heap invariant. */
  ghost predicate HeapOK(mem: Memory, base: int, freep: int, fl: seq<Chunk>, live: map<int, nat>, arena: set<int>,
                         obtained: nat)
  {
    && 0 < base
    && Canonical(fl) && AllAbove(base, fl)
    && (freep == 0 ==> fl == [] && live == map[])
    && (freep != 0 ==> InMemory(mem, base, fl) && AtNode(base, fl, freep))
    && HeadersOK(mem, base, live)
    && Partition(fl, live, arena)
    && Total(fl) + MapTotal(live) == obtained
  }

  /** Free's two header updates keep the invariant. */
  lemma {:induction false} FreeKeeps(mem: Memory, base: int, freep: int, fl: seq<Chunk>, live: map<int, nat>,
                                     arena: set<int>, obtained: nat,
                                     k: nat, c: Chunk, p: Chunk, q: int, m1: Memory, m2: Memory)
    requires HeapOK(mem, base, freep, fl, live, arena, obtained) && freep != 0 && FitsAt(fl, k, c)
    requires c.addr in live && live[c.addr] == c.size
    requires p == Ring(base, fl)[k] && q == Ring(base, fl)[Succ(Ring(base, fl), k)].addr && q in mem
    requires p.addr in mem && mem[p.addr].size == p.size
    requires m1 == mem[c.addr := LinkUpward(mem, q, c.addr, c.size)]
    requires m2 == m1[p.addr := LinkDownward(m1, p.addr, c.addr)]
    ensures HeapOK(m2, base, p.addr, Coalesce(fl, k, c), live - {c.addr}, arena, obtained)
    ensures p.addr != 0
  {
    FreeLinks(mem, base, fl, k, c, p, q, m1, m2);
    NodeStays(base, fl, k, c);
    FreePartition(fl, live, arena, k, c.addr);
    CoalesceCanonical(fl, k, c);
    assert p.addr > 0 by {
      assert k > 0 ==> p == fl[k - 1];
    }
    forall a: int | a in live && a != c.addr
      ensures a != p.addr
    {
      NodeNotLive(base, fl, live, arena, a, k);
    }
    assert AtNode(base, Coalesce(fl, k, c), p.addr);
  }

  /** The list in memory after taking `n` units from chunk `i`. */
  lemma {:induction false} CarveLinks(mem: Memory, base: int, fl: seq<Chunk>, i: nat, n: nat, c: Chunk, h: int,
                                      m: Memory)
    requires Canonical(fl) && InMemory(mem, base, fl) && i < |fl| && 1 <= n <= fl[i].size && c == Carved(fl, i, n)
    requires Ring(base, fl)[i].addr in mem && fl[i].addr in mem
    requires m == if fl[i].size == n
                  then mem[Ring(base, fl)[i].addr := Header(mem[fl[i].addr].ptr, mem[Ring(base, fl)[i].addr].size)]
                  else mem[fl[i].addr := Header(mem[fl[i].addr].ptr, mem[fl[i].addr].size - n)][c.addr := Header(h, n)]
    ensures InMemory(m, base, Carve(fl, i, n))
    ensures i <= |Carve(fl, i, n)| && Ring(base, Carve(fl, i, n))[i].addr == Ring(base, fl)[i].addr
  {
    var ring, g := Ring(base, fl), Carve(fl, i, n);
    CarveRing(base, fl, i, n);
    hide Touch, Carve, Ring;
    CarveCanonical(fl, i, n);
    RingRises(base, g);
    if fl[i].size == n {
      LinkRemove(mem, ring, i, m);
    } else {
      var d := Chunk(fl[i].addr, fl[i].size - n);
      var m1 := mem[fl[i].addr := Header(mem[fl[i].addr].ptr, mem[fl[i].addr].size - n)];
      LinkShrink(mem, ring, i + 1, n, m1);
      CarvedIsNoNode(base, fl, i, n);
      LinkElsewhere(m1, Ring(base, g), c.addr, Header(h, n));
    }
  }

  /** Carving, seen on the ring. */
  lemma {:induction false} CarveRing(base: int, fl: seq<Chunk>, i: nat, n: nat)
    requires AllAbove(base, fl) && i < |fl| && 1 <= n <= fl[i].size
    ensures var ring, g := Ring(base, fl), Carve(fl, i, n);
            && |ring| == |fl| + 1 && ring[i + 1] == fl[i] && AllAbove(base, g)
            && Ring(base, g) == (if fl[i].size == n then ring[..i + 1] + ring[i + 2..]
                                 else ring[i + 1 := Chunk(fl[i].addr, fl[i].size - n)])
            && i <= |g| && Ring(base, g)[i].addr == ring[i].addr
  {
    var ring, g := Ring(base, fl), Carve(fl, i, n);
    if fl[i].size == n {
      assert ring[..i + 1] + ring[i + 2..] == Ring(base, g);
    } else {
      assert ring[i + 1 := Chunk(fl[i].addr, fl[i].size - n)] == Ring(base, g);
    }
  }

  lemma {:induction false} CarvedIsNoNode(base: int, fl: seq<Chunk>, i: nat, n: nat)
    requires Canonical(fl) && AllAbove(base, fl) && i < |fl| && 1 <= n < fl[i].size
    ensures var ring := Ring(base, Carve(fl, i, n));
            forall j :: 0 <= j < |ring| ==> ring[j].addr != Carved(fl, i, n).addr
  {
    var ring, c := Ring(base, Carve(fl, i, n)), Carved(fl, i, n);
    forall j | 0 <= j < |ring|
      ensures ring[j].addr != c.addr
    {
      if j > 0 {
        assert ring[j] == Carve(fl, i, n)[j - 1];
        assert ring[j].addr == fl[j - 1].addr;
      }
    }
  }

  /** malloc's updates spare every other allocated header. */
  lemma {:induction false} CarveHeaders(mem: Memory, base: int, fl: seq<Chunk>, live: map<int, nat>, arena: set<int>,
                                        i: nat, n: nat, c: Chunk, p: int, h: int, m: Memory)
    requires Ordered(fl) && AllAbove(base, fl) && Partition(fl, live, arena) && HeadersOK(mem, base, live)
    requires i < |fl| && 1 <= n <= fl[i].size && c == Carved(fl, i, n) && p == Ring(base, fl)[i].addr
    requires p in mem && fl[i].addr in mem && mem[fl[i].addr].size == fl[i].size
    requires m == if fl[i].size == n then mem[p := Header(mem[fl[i].addr].ptr, mem[p].size)]
                  else mem[fl[i].addr := Header(mem[fl[i].addr].ptr, mem[fl[i].addr].size - n)][c.addr := Header(h, n)]
    ensures HeadersOK(m, base, live[c.addr := n]) && p > base - 1
  {
    assert p >= base && p != fl[i].addr by {
      assert i > 0 ==> Ring(base, fl)[i] == fl[i - 1];
    }
    forall a: int | a in live
      ensures a in m && (a == c.addr || m[a] == mem[a])
    {
      NodeNotLive(base, fl, live, arena, a, i);
      LiveIsApart(fl, live, arena, a, i);
    }
  }

  /** malloc's updates keep the invariant; the new chunk was free and is now live. */
  lemma {:induction false} CarveKeeps(mem: Memory, base: int, freep: int, fl: seq<Chunk>, live: map<int, nat>,
                                      arena: set<int>, obtained: nat, i: nat, n: nat, c: Chunk, p: int, h: int,
                                      m: Memory)
    requires HeapOK(mem, base, freep, fl, live, arena, obtained) && freep != 0
    requires i < |fl| && 1 <= n <= fl[i].size && c == Carved(fl, i, n) && p == Ring(base, fl)[i].addr
    requires p in mem && fl[i].addr in mem && mem[fl[i].addr].size == fl[i].size
    requires m == if fl[i].size == n then mem[p := Header(mem[fl[i].addr].ptr, mem[p].size)]
                  else mem[fl[i].addr := Header(mem[fl[i].addr].ptr, mem[fl[i].addr].size - n)][c.addr := Header(h, n)]
    ensures HeapOK(m, base, p, Carve(fl, i, n), live[c.addr := n], arena, obtained)
    ensures c.addr !in live && p != 0
  {
    assert forall a: int :: a in live ==> live[a] >= 1;
    hide Carve, Linked, Rising, Total, MapTotal, Touch, Partition, Ordered, Covers, HeadersOK, AllAbove, Ring;
    CarveLinks(mem, base, fl, i, n, c, h, m);
    CarvePartition(fl, live, arena, i, n, c);
    CarveCanonical(fl, i, n);
    CarveHeaders(mem, base, fl, live, arena, i, n, c, p, h, m);
    assert AtNode(base, Carve(fl, i, n), p);
  }

  /** Fresh core counts as live until morecore frees it. */
  lemma {:induction false} GrowKeeps(mem: Memory, base: int, freep: int, fl: seq<Chunk>, live: map<int, nat>,
                                     arena: set<int>, obtained: nat, c: Chunk, nu: nat)
    requires HeapOK(mem, base, freep, fl, live, arena, obtained) && freep != 0
    requires c.size == nu >= 1 && base < c.addr && forall u :: u in arena ==> u < c.addr
    ensures c.addr !in live
    ensures HeapOK(mem[c.addr := Header(0, nu)], base, freep, fl, live[c.addr := nu], arena + Span(c), obtained + nu)
  {
    GrowPartition(fl, live, arena, c, nu);
    var ring := Ring(base, fl);
    forall i | 0 <= i < |ring|
      ensures ring[i].addr != c.addr
    {
      if i > 0 {
        assert ring[i] == fl[i - 1];
        assert fl[i - 1].Has(ring[i].addr);
        assert Covers(fl, ring[i].addr);
      }
    }
    LinkElsewhere(mem, ring, c.addr, Header(0, nu));
  }

  /** The units a program owns after sbrk with its break at `core`: a negative argument larger than
      the size wraps in growproc and deallocuvm then does nothing. */
  function AfterSbrk(arena: set<int>, core: int, argument: int): set<int> {
    if argument >= 0 then arena + Span(Chunk(core, argument / 8))
    else if core * 8 + argument < 0 then arena
    else set u | u in arena && u < core + argument / 8
  }

  /** An argument that brings the size to 0 makes sbrk return -1, with the memory gone. */
  predicate SbrkEmpties(core: int, argument: int) {
    argument < 0 && core * 8 + argument == 0
  }

  /** morecore takes the chunk it asked for as its own: the heap invariant survives, with any count
      of units obtained, exactly when fewer than 2^28 units were asked for. When sbrk has emptied the
      program, malloc reports a failure and takes nothing, but the heap is gone if there was one. */
  lemma {:induction false} MorecoreKeepsIff(mem: Memory, base: int, freep: int, fl: seq<Chunk>, live: map<int, nat>,
                                            arena: set<int>, obtained: nat, c: Chunk, nu: nat)
    requires HeapOK(mem, base, freep, fl, live, arena, obtained) && freep != 0
    requires c.size == nu && 1 <= nu < 0x1_0000_0000 && base < c.addr && forall u :: u in arena ==> u < c.addr
    ensures var mem', live' := mem[c.addr := Header(0, nu)], live[c.addr := nu];
            var arena' := AfterSbrk(arena, c.addr, SbrkArgument(nu));
            !SbrkEmpties(c.addr, SbrkArgument(nu)) ==>
              ((exists o: nat :: HeapOK(mem', base, freep, fl, live', arena', o)) <==> nu < 0x1000_0000)
    ensures SbrkEmpties(c.addr, SbrkArgument(nu)) ==>
      ((exists o: nat :: HeapOK(mem, base, freep, fl, live, {}, o)) <==> arena == {})
  {
    SbrkAsksRight(nu);
    var mem', live' := mem[c.addr := Header(0, nu)], live[c.addr := nu];
    var arena' := AfterSbrk(arena, c.addr, SbrkArgument(nu));
    if SbrkEmpties(c.addr, SbrkArgument(nu)) {
      if arena == {} {
        assert HeapOK(mem, base, freep, fl, live, {}, obtained);
      } else {
        forall o: nat ensures !HeapOK(mem, base, freep, fl, live, {}, o)
        {
          if HeapOK(mem, base, freep, fl, live, {}, o) {
            OneArena(fl, live, arena, {});
          }
        }
      }
    } else if nu < 0x1000_0000 {
      GrowKeeps(mem, base, freep, fl, live, arena, obtained, c, nu);
      assert HeapOK(mem', base, freep, fl, live', arena', obtained + nu);
    } else {
      LastUnitMissing(arena, c, nu);
      forall o: nat ensures !HeapOK(mem', base, freep, fl, live', arena', o)
      {
        NotOwned(fl, live', arena', c, nu);
      }
    }
  }

  /** The chunks determine the units they partition. */
  lemma {:induction false} OneArena(fl: seq<Chunk>, live: map<int, nat>, a: set<int>, b: set<int>)
    requires Partition(fl, live, a) && Partition(fl, live, b)
    ensures a == b
  {
    assert forall u :: u in a <==> u in b;
  }

  /** The chunk's last unit was not obtained. */
  lemma {:induction false} LastUnitMissing(arena: set<int>, c: Chunk, nu: nat)
    requires c.size == nu && 0x1000_0000 <= nu < 0x1_0000_0000 && forall u :: u in arena ==> u < c.addr
    ensures c.addr + nu - 1 !in AfterSbrk(arena, c.addr, SbrkArgument(nu))
  {
    assert SbrkArgument(nu) <= nu * 8 - 8;
  }

  lemma {:induction false} NotOwned(fl: seq<Chunk>, live: map<int, nat>, arena: set<int>, c: Chunk, nu: nat)
    requires c.addr in live && live[c.addr] == nu >= 1 && c.addr + nu - 1 !in arena
    ensures !Partition(fl, live, arena)
  {
    var u := c.addr + nu - 1;
    assert c.addr <= u < c.addr + live[c.addr];
    assert LiveHas(live, u);
  }

  lemma {:induction false} InitKeeps(mem: Memory, base: int, fl: seq<Chunk>, live: map<int, nat>, arena: set<int>,
                                     obtained: nat)
    requires HeapOK(mem, base, 0, fl, live, arena, obtained)
    ensures HeapOK(mem[base := Header(base, 0)], base, base, fl, live, arena, obtained)
  {
    var m, ring := mem[base := Header(base, 0)], Ring(base, fl);
    assert LinkedAt(m, ring, 0);
    assert Linked(m, ring);
    assert ring[0].addr == base;
    assert AtNode(base, fl, base);
  }

  /** A live chunk fits between two free chunks, at its position. */
  lemma {:induction false} LiveFits(fl: seq<Chunk>, live: map<int, nat>, arena: set<int>, a: int)
    requires Canonical(fl) && Partition(fl, live, arena) && a in live && live[a] >= 1
    ensures var c := Chunk(a, live[a]); FitsAt(fl, Position(fl, c), c)
  {
    var c := Chunk(a, live[a]);
    forall i | 0 <= i < |fl|
      ensures fl[i].Apart(c)
    {
      LiveIsApart(fl, live, arena, a, i);
    }
    PositionFits(fl, c);
  }

  lemma {:induction false} NodeNotLive(base: int, fl: seq<Chunk>, live: map<int, nat>, arena: set<int>, a: int, k: nat)
    requires Partition(fl, live, arena) && Ordered(fl) && a in live && base < a && live[a] >= 1 && k <= |fl|
    ensures a != Ring(base, fl)[k].addr
  {
    if k > 0 {
      LiveIsApart(fl, live, arena, a, k - 1);
      assert Ring(base, fl)[k] == fl[k - 1];
    }
  }

  /** Nodes after f, cyclically: the t-th of a lap over m nodes. */
  function Lap(f: nat, t: nat, m: nat): (i: nat)
    requires f < m && t <= m
    ensures i < m && (t > 0 ==> (i == f <==> t == m))
  {
    if f + t < m then f + t else f + t - m
  }

  /** A lap visits every node. */
  lemma {:induction false} LapVisits(f: nat, m: nat, i: nat) returns (t: nat)
    requires f < m && i < m
    ensures 1 <= t <= m && Lap(f, t, m) == i
  {
    t := if i > f then i - f else i - f + m;
  }

  /** Nodes f + 1 .. f + t - 1 of the lap are smaller than n. */
  ghost predicate TooSmall(ring: seq<Chunk>, f: nat, t: nat, n: nat)
    requires f < |ring| && t <= |ring| + 1
  {
    forall s :: 1 <= s < t ==> ring[Lap(f, s, |ring|)].size < n
  }

  lemma {:induction false} TooSmallStep(ring: seq<Chunk>, f: nat, t: nat, n: nat)
    requires f < |ring| && 1 <= t <= |ring| && TooSmall(ring, f, t, n) && ring[Lap(f, t, |ring|)].size < n
    ensures TooSmall(ring, f, t + 1, n)
  {
  }

  /** After a whole lap no chunk is left to try. */
  lemma {:induction false} LapDone(base: int, fl: seq<Chunk>, f: nat, n: nat)
    requires f <= |fl| && TooSmall(Ring(base, fl), f, |fl| + 2, n)
    ensures !HasRoom(fl, n)
  {
    var ring := Ring(base, fl);
    forall i | 0 <= i < |fl|
      ensures fl[i].size < n
    {
      var t := LapVisits(f, |ring|, i + 1);
      assert ring[Lap(f, t, |ring|)] == fl[i];
    }
  }

  /** free's walk from a node to the last node below `bp`; it ends within one lap. */
  method SearchFrom(mem: Memory, start: int, bp: int, ghost ring: seq<Chunk>, ghost f: nat, ghost k: nat)
    returns (p: int)
    requires Rising(ring) && Linked(mem, ring)
    requires f < |ring| && start == ring[f].addr
    requires k < |ring| && ring[k].addr < bp && (k + 1 < |ring| ==> bp < ring[k + 1].addr)
    ensures p == ring[k].addr
  {
    p := start;
    ghost var i: nat := f;
    NodeHeader(mem, ring, i);
    SearchStops(ring, k, bp, i);
    while !StopsAt(p, mem[p].ptr, bp)
      invariant i < |ring| && p == ring[i].addr && p in mem && mem[p].ptr == ring[Succ(ring, i)].addr
      invariant StopsAt(p, mem[p].ptr, bp) <==> i == k
      decreases if i <= k then k - i else |ring| - i + k
    {
      p := mem[p].ptr;
      i := Succ(ring, i);
      NodeHeader(mem, ring, i);
      SearchStops(ring, k, bp, i);
    }
  }

  lemma {:induction false} NodeHeader(mem: Memory, ring: seq<Chunk>, i: nat)
    requires Linked(mem, ring) && i < |ring|
    ensures ring[i].addr in mem && mem[ring[i].addr] == Header(ring[Succ(ring, i)].addr, ring[i].size)
    ensures Succ(ring, i) < |ring| && ring[Succ(ring, i)].addr in mem
  {
    assert LinkedAt(mem, ring, i);
    assert LinkedAt(mem, ring, Succ(ring, i));
  }

  ghost predicate HasRoom(fl: seq<Chunk>, n: nat) {
    exists i :: 0 <= i < |fl| && fl[i].size >= n
  }

  /** `n` units were taken from some chunk of `fl`; their payload starts at `ap`. */
  ghost predicate Taken(fl: seq<Chunk>, live: map<int, nat>, n: nat, ap: int, fl': seq<Chunk>, live': map<int, nat>) {
    exists i :: 0 <= i < |fl| && TakenAt(fl, live, n, ap, fl', live', i)
  }

  ghost predicate TakenAt(fl: seq<Chunk>, live: map<int, nat>, n: nat, ap: int, fl': seq<Chunk>, live': map<int, nat>,
                          i: nat)
    requires i < |fl|
  {
    && fl[i].size >= n && fl' == Carve(fl, i, n) && ap - 1 == Carved(fl, i, n).addr
    && ap - 1 !in live && live' == live[ap - 1 := n]
  }

  class Allocator {
    const base: int
    var mem: Memory
    var freep: int                  // 0 before the first malloc
    ghost var free: seq<Chunk>
    ghost var live: map<int, nat>   // allocated chunks by header address
    ghost var arena: set<int>       // units obtained from sbrk
    ghost var obtained: nat

    ghost predicate Valid()
      reads this
    {
      HeapOK(mem, base, freep, free, live, arena, obtained)
    }

    constructor (b: int)
      requires 0 < b
      ensures Valid() && base == b && free == [] && live == map[] && arena == {} && obtained == 0 && freep == 0
    {
      base, mem, freep := b, map[], 0;
      free, live, arena, obtained := [], map[], {}, 0;
    }

    /** Returns the chunk whose payload starts at `ap` to the list, merged with its neighbours. */
    method Free(ap: int)
      requires Valid() && ap - 1 in live
      modifies `mem, `freep, `free, `live
      ensures Valid() && freep != 0
      ensures live == old(live) - {ap - 1}
      ensures var c := Chunk(ap - 1, old(live)[ap - 1]);
              free == Coalesce(old(free), Position(old(free), c), c)
    {
      hide Coalesce, Rising, Ordered, Partition, Linked, Covers, Touch, AllAbove;
      var bp := ap - 1;
      ghost var c := Chunk(bp, live[bp]);
      ghost var k := Position(free, c);
      ghost var ring := Ring(base, free);
      LiveFits(free, live, arena, bp);
      NodesAvoid(base, free, k, c);
      ghost var f: nat :| 0 <= f <= |free| && ring[f].addr == freep;
      var p := SearchFrom(mem, freep, bp, ring, f, k);
      NodeHeader(mem, ring, k);
      var q := mem[p].ptr;
      var m1 := mem[bp := LinkUpward(mem, q, bp, mem[bp].size)];
      var m2 := m1[p := LinkDownward(m1, p, bp)];
      FreeKeeps(mem, base, freep, free, live, arena, obtained, k, c, ring[k], q, m1, m2);
      mem, freep := m2, p;
      free, live := Coalesce(free, k, c), live - {bp};
    }
  
    /** Takes `n` units from chunk `i`, whose predecessor node is `prevp`. */
    method Take(n: nat, prevp: int, p: int, ghost i: nat) returns (ap: int)
      requires Valid() && freep != 0
      requires i < |free| && 1 <= n <= free[i].size && p == free[i].addr && prevp == Ring(base, free)[i].addr
      modifies `mem, `freep, `free, `live
      ensures Valid() && freep != 0
      ensures HasRoom(old(free), n) && Taken(old(free), old(live), n, ap, free, live)
    {
      hide Rising, Ordered, Partition, Linked, Covers, Touch, AllAbove, Carve;
      ghost var ring := Ring(base, free);
      assert ring[i + 1] == free[i];
      NodeHeader(mem, ring, i);
      NodeHeader(mem, ring, i + 1);
      ghost var m0, c := mem, Carved(free, i, n);
      var q := p;
      ghost var h := 0;
      if mem[p].size == n {
        mem := mem[prevp := Header(mem[p].ptr, mem[prevp].size)];
      } else {
        mem := mem[p := Header(mem[p].ptr, mem[p].size - n)];
        q := p + mem[p].size;
        h := if q in mem then mem[q].ptr else 0;
        mem := mem[q := Header(if q in mem then mem[q].ptr else 0, n)];
      }
      CarveKeeps(m0, base, freep, free, live, arena, obtained, i, n, c, prevp, h, mem);
      freep := prevp;
      ap := q + 1;
      assert TakenAt(free, live, n, ap, Carve(free, i, n), live[q := n], i);
      free, live := Carve(free, i, n), live[q := n];
    }

    /** Asks sbrk for at least MINCORE units and frees what it gets; returns freep. */
    method Morecore(nunits: nat, core: int) returns (p: int)
      requires Valid() && freep != 0
      requires base < core && forall u :: u in arena ==> u < core
      modifies this
      ensures Valid() && freep != 0 && p == freep
      ensures live == old(live)
      ensures var c := Chunk(core, Max(nunits, MINCORE));
              && free == Coalesce(old(free), |old(free)|, c)
              && arena == old(arena) + Span(c) && obtained == old(obtained) + c.size
    {
      hide HeapOK, Coalesce, Covers, MapTotal, Total;
      var nu := Max(nunits, MINCORE);
      ghost var c := Chunk(core, nu);
      EndPosition(mem, base, freep, free, live, arena, obtained, c);
      GrowKeeps(mem, base, freep, free, live, arena, obtained, c, nu);
      mem := mem[core := Header(0, nu)];
      live, arena, obtained := live[core := nu], arena + Span(c), obtained + nu;
      Free(core + 1);
      assert live == old(live);
      p := freep;
    }

    /** Next-fit search from freep; when a whole lap finds nothing, more core is asked for once. */
    method Malloc(nbytes: nat, sbrk: Option<int>) returns (r: Option<int>)
      requires Valid()
      requires sbrk.Some? ==> base < sbrk.value && forall u :: u in arena ==> u < sbrk.value
      requires var nu := Max(Units(nbytes), MINCORE); SbrkArgument(nu) == nu * 8
      modifies this
      ensures Valid() && freep != 0
      ensures HasRoom(old(free), Units(nbytes)) ==>
                && r.Some? && Taken(old(free), old(live), Units(nbytes), r.value, free, live)
                && arena == old(arena) && obtained == old(obtained)
      ensures !HasRoom(old(free), Units(nbytes)) && sbrk.Some? ==>
                var c := Chunk(sbrk.value, Max(Units(nbytes), MINCORE));
                && r.Some? && Taken(Coalesce(old(free), |old(free)|, c), old(live), Units(nbytes), r.value, free, live)
                && arena == old(arena) + Span(c) && obtained == old(obtained) + c.size
      ensures !HasRoom(old(free), Units(nbytes)) && sbrk.None? ==>
                r.None? && free == old(free) && live == old(live) && arena == old(arena) && obtained == old(obtained)
    {
      hide HeapOK, Coalesce, Covers, Carve, Ring, Span, Units, SbrkArgument, TooSmall, Taken, HasRoom, Lap;
      var n := Units(nbytes);
      if freep == 0 {
        InitKeeps(mem, base, free, live, arena, obtained);
        mem := mem[base := Header(base, 0)];
        freep := base;
      }
      ghost var f: nat := StartNode(mem, base, freep, free, live, arena, obtained);
      var prevp := freep;
      var p := mem[prevp].ptr;
      ghost var t, grown := 1, false;
      while true
        invariant Valid() && freep != 0 && f <= |free| && 1 <= t <= |free| + 1
        invariant freep == Ring(base, free)[f].addr
        invariant prevp == Ring(base, free)[Lap(f, t - 1, |free| + 1)].addr
        invariant p == Ring(base, free)[Lap(f, t, |free| + 1)].addr
        invariant TooSmall(Ring(base, free), f, t, n)
        invariant live == old(live)
        invariant !grown ==> free == old(free) && arena == old(arena) && obtained == old(obtained)
        invariant grown ==> sbrk.Some? && !HasRoom(old(free), n) && HasRoom(free, n)
        invariant grown ==> var c := Chunk(sbrk.value, Max(n, MINCORE));
                    && free == Coalesce(old(free), |old(free)|, c) && arena == old(arena) + Span(c)
                    && obtained == old(obtained) + c.size
        decreases !grown, |free| + 1 - t
      {
        ghost var j := Lap(f, t, |free| + 1);
        NodeAt(mem, base, freep, free, live, arena, obtained, f, t);
        if mem[p].size >= n {
          var ap := Take(n, prevp, p, j - 1);
          return Some(ap);
        }
        TooSmallStep(Ring(base, free), f, t, n);
        if p == freep {
          LapDone(base, free, f, n);
          assert !grown;
          if sbrk.None? {
            return None;
          }
          ghost var c := Chunk(sbrk.value, Max(n, MINCORE));
          RoomAfterGrowth(mem, base, freep, free, live, arena, obtained, c, n);
          p := Morecore(n, sbrk.value);
          f := StartNode(mem, base, freep, free, live, arena, obtained);
          t, grown := 0, true;
        }
        prevp, p := p, mem[p].ptr;
        t := t + 1;
      }
    }
  }

  lemma {:induction false} EndPosition(mem: Memory, base: int, freep: int, fl: seq<Chunk>, live: map<int, nat>,
                                       arena: set<int>, obtained: nat, c: Chunk)
    requires HeapOK(mem, base, freep, fl, live, arena, obtained)
    requires c.size >= 1 && forall u :: u in arena ==> u < c.addr
    ensures Position(fl, c) == |fl|
  {
    CoreFitsAtEnd(fl, c);
  }

  lemma {:induction false} RoomAfterGrowth(mem: Memory, base: int, freep: int, fl: seq<Chunk>, live: map<int, nat>,
                                           arena: set<int>, obtained: nat, c: Chunk, n: nat)
    requires HeapOK(mem, base, freep, fl, live, arena, obtained)
    requires c.size >= 1 && c.size >= n && forall u :: u in arena ==> u < c.addr
    ensures HasRoom(Coalesce(fl, |fl|, c), n)
  {
    CoreFitsAtEnd(fl, c);
  }

  /** Some node of the ring is freep; its header is in memory. */
  lemma {:induction false} StartNode(mem: Memory, base: int, freep: int, fl: seq<Chunk>, live: map<int, nat>,
                                     arena: set<int>, obtained: nat) returns (f: nat)
    requires HeapOK(mem, base, freep, fl, live, arena, obtained) && freep != 0
    ensures f <= |fl| && Ring(base, fl)[f].addr == freep
    ensures freep in mem && mem[freep].ptr == Ring(base, fl)[Lap(f, 1, |fl| + 1)].addr
    ensures Lap(f, 0, |fl| + 1) == f
    ensures forall n :: TooSmall(Ring(base, fl), f, 1, n)
  {
    f :| f <= |fl| && Ring(base, fl)[f].addr == freep;
    NodeHeader(mem, Ring(base, fl), f);
  }

  lemma {:induction false} NodeAt(mem: Memory, base: int, freep: int, fl: seq<Chunk>, live: map<int, nat>,
                                  arena: set<int>, obtained: nat, f: nat, t: nat)
    requires HeapOK(mem, base, freep, fl, live, arena, obtained) && freep != 0
    requires f <= |fl| && 1 <= t <= |fl| + 1 && Ring(base, fl)[f].addr == freep
    ensures var ring := Ring(base, fl); var j := Lap(f, t, |fl| + 1);
            && ring[j].addr in mem && mem[ring[j].addr].size == ring[j].size
            && (t <= |fl| ==> mem[ring[j].addr].ptr == ring[Lap(f, t + 1, |fl| + 1)].addr)
            && (ring[j].addr == freep <==> t == |fl| + 1)
            && (ring[j].size > 0 ==> j > 0 && ring[j] == fl[j - 1] && Lap(f, t - 1, |fl| + 1) == j - 1)
  {
    var ring, j := Ring(base, fl), Lap(f, t, |fl| + 1);
    NodeHeader(mem, ring, j);
    assert Rising(ring);
    assert j < f ==> ring[j].addr < ring[f].addr;
    assert f < j ==> ring[f].addr < ring[j].addr;
  }
}
