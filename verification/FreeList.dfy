/**
  The free list of Lab/code/umalloc.c as a value: the free chunks in address order.
  Addresses and sizes count header-sized units.
 */
module FreeList {

  datatype Chunk = Chunk(addr: int, size: int) {
    predicate Has(u: int) {
      addr <= u < addr + size
    }

    predicate Apart(c: Chunk) {
      addr + size <= c.addr || c.addr + c.size <= addr
    }
  }

  /** Address-ordered, without overlap. */
  ghost predicate Ordered(fl: seq<Chunk>) {
    && (forall i :: 0 <= i < |fl| ==> fl[i].size >= 1)
    && (forall i, j :: 0 <= i < j < |fl| ==> fl[i].addr + fl[i].size <= fl[j].addr)
  }

  /** Chunk i ends where chunk i + 1 begins. */
  predicate Touch(fl: seq<Chunk>, i: int) {
    0 <= i && i + 1 < |fl| && fl[i].addr + fl[i].size == fl[i + 1].addr
  }

  /** Fully coalesced: no two neighbours touch. */
  ghost predicate Canonical(fl: seq<Chunk>) {
    Ordered(fl) && forall i :: !Touch(fl, i)
  }

  ghost predicate Covers(fl: seq<Chunk>, u: int) {
    exists i :: 0 <= i < |fl| && fl[i].Has(u)
  }

  ghost function Total(fl: seq<Chunk>): int {
    if fl == [] then 0 else fl[0].size + Total(fl[1..])
  }

  lemma {:induction false} TotalConcat(a: seq<Chunk>, b: seq<Chunk>)
    ensures Total(a + b) == Total(a) + Total(b)
  {
    if a == [] {
      assert a + b == b;
    } else {
      assert (a + b)[1..] == a[1..] + b;
      TotalConcat(a[1..], b);
    }
  }

  lemma {:induction false} CoversConcat(a: seq<Chunk>, b: seq<Chunk>, u: int)
    ensures Covers(a + b, u) <==> Covers(a, u) || Covers(b, u)
  {
    if Covers(a, u) {
      var i :| 0 <= i < |a| && a[i].Has(u);
      assert (a + b)[i].Has(u);
    }
    if Covers(b, u) {
      var i :| 0 <= i < |b| && b[i].Has(u);
      assert (a + b)[|a| + i].Has(u);
    }
    if Covers(a + b, u) {
      var i :| 0 <= i < |a + b| && (a + b)[i].Has(u);
      assert if i < |a| then a[i].Has(u) else b[i - |a|].Has(u);
    }
  }

  // ---- the list is determined by the set of free units ----

  lemma {:induction false} SameUnitsSameList(a: seq<Chunk>, b: seq<Chunk>)
    requires Canonical(a) && Canonical(b)
    requires forall u :: Covers(a, u) <==> Covers(b, u)
    ensures a == b
    decreases |a|
  {
    if a == [] {
      if b != [] {
        assert b[0].Has(b[0].addr);
        assert Covers(b, b[0].addr);
      }
    } else if b == [] {
      assert a[0].Has(a[0].addr);
      assert Covers(a, a[0].addr);
    } else {
      StartsNoLater(a, b);
      StartsNoLater(b, a);
      EndsNoLater(a, b);
      EndsNoLater(b, a);
      forall u
        ensures Covers(a[1..], u) <==> Covers(b[1..], u)
      {
        TailUnits(a, u);
        TailUnits(b, u);
      }
      TailCanonical(a);
      TailCanonical(b);
      SameUnitsSameList(a[1..], b[1..]);
      assert a == [a[0]] + a[1..] && b == [b[0]] + b[1..];
    }
  }

  lemma {:induction false} StartsNoLater(a: seq<Chunk>, b: seq<Chunk>)
    requires Canonical(a) && Canonical(b) && a != [] && b != []
    requires forall u :: Covers(a, u) <==> Covers(b, u)
    ensures a[0].addr <= b[0].addr
  {
    assert b[0].Has(b[0].addr);
    assert Covers(b, b[0].addr);
    var i :| 0 <= i < |a| && a[i].Has(b[0].addr);
    assert i > 0 ==> a[0].addr + a[0].size <= a[i].addr;
  }

  lemma {:induction false} EndsNoLater(a: seq<Chunk>, b: seq<Chunk>)
    requires Canonical(a) && Canonical(b) && a != [] && b != [] && a[0].addr == b[0].addr
    requires forall u :: Covers(a, u) <==> Covers(b, u)
    ensures a[0].size <= b[0].size
  {
    var u := b[0].addr + b[0].size;
    assert !Touch(b, 0);
    if a[0].size > b[0].size {
      assert a[0].Has(u);
      assert Covers(a, u);
    }
  }

  lemma {:induction false} TailCanonical(a: seq<Chunk>)
    requires Canonical(a) && a != []
    ensures Canonical(a[1..])
  {
    forall i
      ensures !Touch(a[1..], i)
    {
      assert !Touch(a, i + 1);
    }
  }

  lemma {:induction false} TailUnits(a: seq<Chunk>, u: int)
    requires Canonical(a) && a != []
    ensures Covers(a[1..], u) <==> Covers(a, u) && u >= a[0].addr + a[0].size
  {
    if Covers(a[1..], u) {
      var i :| 0 <= i < |a[1..]| && a[1..][i].Has(u);
      assert a[i + 1].Has(u);
    }
    if Covers(a, u) && u >= a[0].addr + a[0].size {
      var i :| 0 <= i < |a| && a[i].Has(u);
      assert a[1..][i - 1].Has(u);
    }
  }

  // ---- free ----

  /** `k` chunks lie below `c`, the others above, and none overlaps it. */
  ghost predicate FitsAt(fl: seq<Chunk>, k: nat, c: Chunk) {
    && k <= |fl| && c.size >= 1
    && (forall i :: 0 <= i < k ==> fl[i].addr + fl[i].size <= c.addr)
    && (forall i :: k <= i < |fl| ==> c.addr + c.size <= fl[i].addr)
  }

  function InsertAt(fl: seq<Chunk>, k: nat, c: Chunk): seq<Chunk>
    requires k <= |fl|
  {
    fl[..k] + [c] + fl[k..]
  }

  /** Merge chunks i and i + 1 if they touch. */
  function JoinAt(fl: seq<Chunk>, i: int): seq<Chunk> {
    if Touch(fl, i) then fl[..i] + [Chunk(fl[i].addr, fl[i].size + fl[i + 1].size)] + fl[i + 2..] else fl
  }

  /** Put `c` between its neighbours, merging upwards first and then downwards. */
  function Coalesce(fl: seq<Chunk>, k: nat, c: Chunk): seq<Chunk>
    requires k <= |fl|
  {
    JoinAt(JoinAt(InsertAt(fl, k, c), k), k - 1)
  }

  lemma {:induction false} JoinOrdered(fl: seq<Chunk>, i: int)
    requires Ordered(fl)
    ensures Ordered(JoinAt(fl, i))
  {
  }

  lemma {:induction false} JoinCovers(fl: seq<Chunk>, i: int, u: int)
    requires Ordered(fl)
    ensures Covers(JoinAt(fl, i), u) <==> Covers(fl, u)
  {
    if Touch(fl, i) {
      var c := Chunk(fl[i].addr, fl[i].size + fl[i + 1].size);
      assert fl == fl[..i] + [fl[i]] + [fl[i + 1]] + fl[i + 2..];
      CoversConcat(fl[..i] + [fl[i]] + [fl[i + 1]], fl[i + 2..], u);
      CoversConcat(fl[..i] + [fl[i]], [fl[i + 1]], u);
      CoversConcat(fl[..i], [fl[i]], u);
      CoversConcat(fl[..i] + [c], fl[i + 2..], u);
      CoversConcat(fl[..i], [c], u);
      CoversOne(c, u);
      CoversOne(fl[i], u);
      CoversOne(fl[i + 1], u);
    }
  }

  lemma {:induction false} JoinTotal(fl: seq<Chunk>, i: int)
    ensures Total(JoinAt(fl, i)) == Total(fl)
  {
    if Touch(fl, i) {
      var c := Chunk(fl[i].addr, fl[i].size + fl[i + 1].size);
      assert fl == fl[..i] + [fl[i]] + [fl[i + 1]] + fl[i + 2..];
      TotalConcat(fl[..i] + [fl[i]] + [fl[i + 1]], fl[i + 2..]);
      TotalConcat(fl[..i] + [fl[i]], [fl[i + 1]]);
      TotalConcat(fl[..i], [fl[i]]);
      TotalConcat(fl[..i] + [c], fl[i + 2..]);
      TotalConcat(fl[..i], [c]);
    }
  }

  lemma {:induction false} CoversOne(c: Chunk, u: int)
    ensures Covers([c], u) <==> c.Has(u)
  {
    if c.Has(u) {
      assert [c][0].Has(u);
    }
  }

  lemma {:induction false} InsertOrdered(fl: seq<Chunk>, k: nat, c: Chunk)
    requires Canonical(fl) && FitsAt(fl, k, c)
    ensures Ordered(InsertAt(fl, k, c))
    ensures forall i :: Touch(InsertAt(fl, k, c), i) ==> i == k || i == k - 1
  {
    forall i | Touch(InsertAt(fl, k, c), i)
      ensures i == k || i == k - 1
    {
      assert !Touch(fl, i) && !Touch(fl, i - 1);
    }
  }

  lemma {:induction false} JoinTouches(fl: seq<Chunk>, i: int, j: int)
    requires Touch(JoinAt(fl, i), j)
    ensures Touch(fl, if j < i || !Touch(fl, i) then j else j + 1)
  {
  }

  lemma {:induction false} CoalesceCanonical(fl: seq<Chunk>, k: nat, c: Chunk)
    requires Canonical(fl) && FitsAt(fl, k, c)
    ensures Canonical(Coalesce(fl, k, c))
  {
    var g := InsertAt(fl, k, c);
    InsertOrdered(fl, k, c);
    JoinOrdered(g, k);
    var h := JoinAt(g, k);
    JoinOrdered(h, k - 1);
    var r := JoinAt(h, k - 1);
    forall i | Touch(h, i)
      ensures i == k - 1
    {
      JoinTouches(g, k, i);
    }
    forall i
      ensures !Touch(r, i)
    {
      if Touch(r, i) {
        JoinTouches(h, k - 1, i);
      }
    }
  }

  lemma {:induction false} CoalesceCovers(fl: seq<Chunk>, k: nat, c: Chunk, u: int)
    requires Canonical(fl) && FitsAt(fl, k, c)
    ensures Covers(Coalesce(fl, k, c), u) <==> Covers(fl, u) || c.Has(u)
  {
    var g := InsertAt(fl, k, c);
    InsertOrdered(fl, k, c);
    JoinOrdered(g, k);
    JoinCovers(g, k, u);
    JoinCovers(JoinAt(g, k), k - 1, u);
    CoversConcat(fl[..k] + [c], fl[k..], u);
    CoversConcat(fl[..k], [c], u);
    CoversOne(c, u);
    assert fl == fl[..k] + fl[k..];
    CoversConcat(fl[..k], fl[k..], u);
  }

  lemma {:induction false} CoalesceTotal(fl: seq<Chunk>, k: nat, c: Chunk)
    requires k <= |fl|
    ensures Total(Coalesce(fl, k, c)) == Total(fl) + c.size
  {
    JoinTotal(InsertAt(fl, k, c), k);
    JoinTotal(JoinAt(InsertAt(fl, k, c), k), k - 1);
    TotalConcat(fl[..k] + [c], fl[k..]);
    TotalConcat(fl[..k], [c]);
    assert fl == fl[..k] + fl[k..];
    TotalConcat(fl[..k], fl[k..]);
  }

  // ---- malloc ----

  /** Take `n` units from the end of chunk `i`; a chunk of exactly `n` leaves the list. */
  function Carve(fl: seq<Chunk>, i: nat, n: int): seq<Chunk>
    requires i < |fl|
  {
    if fl[i].size == n then fl[..i] + fl[i + 1..]
    else fl[i := Chunk(fl[i].addr, fl[i].size - n)]
  }

  function Carved(fl: seq<Chunk>, i: nat, n: int): Chunk
    requires i < |fl|
  {
    Chunk(fl[i].addr + fl[i].size - n, n)
  }

  lemma {:induction false} CarveCanonical(fl: seq<Chunk>, i: nat, n: int)
    requires Canonical(fl) && i < |fl| && 1 <= n <= fl[i].size
    ensures Canonical(Carve(fl, i, n))
    ensures forall j :: 0 <= j < |Carve(fl, i, n)| ==> Carve(fl, i, n)[j].Apart(Carved(fl, i, n))
  {
    var r := Carve(fl, i, n);
    forall j
      ensures !Touch(r, j)
    {
      assert !Touch(fl, j) && !Touch(fl, j + 1);
    }
  }

  lemma {:induction false} CarveCovers(fl: seq<Chunk>, i: nat, n: int, u: int)
    requires Canonical(fl) && i < |fl| && 1 <= n <= fl[i].size
    ensures Covers(Carve(fl, i, n), u) <==> Covers(fl, u) && !Carved(fl, i, n).Has(u)
  {
    var r, c := Carve(fl, i, n), Carved(fl, i, n);
    var rest := Chunk(fl[i].addr, fl[i].size - n);
    assert fl == fl[..i] + [fl[i]] + fl[i + 1..];
    CoversConcat(fl[..i] + [fl[i]], fl[i + 1..], u);
    CoversConcat(fl[..i], [fl[i]], u);
    CoversOne(fl[i], u);
    if fl[i].size == n {
      CoversConcat(fl[..i], fl[i + 1..], u);
    } else {
      assert r == fl[..i] + [rest] + fl[i + 1..];
      CoversConcat(fl[..i] + [rest], fl[i + 1..], u);
      CoversConcat(fl[..i], [rest], u);
      CoversOne(rest, u);
    }
    assert c.Has(u) ==> !Covers(fl[..i], u) && !Covers(fl[i + 1..], u);
  }

  lemma {:induction false} CarveTotal(fl: seq<Chunk>, i: nat, n: int)
    requires i < |fl|
    ensures Total(Carve(fl, i, n)) == Total(fl) - n
  {
    assert fl == fl[..i] + fl[i..];
    TotalConcat(fl[..i], fl[i..]);
    if fl[i].size == n {
      TotalConcat(fl[..i], fl[i + 1..]);
    } else {
      var c := Chunk(fl[i].addr, fl[i].size - n);
      assert Carve(fl, i, n) == fl[..i] + [c] + fl[i + 1..];
      TotalConcat(fl[..i], [c]);
      TotalConcat(fl[..i] + [c], fl[i + 1..]);
    }
  }

  /** Freeing what was just carved restores the list. */
  lemma {:induction false} FreeUndoesMalloc(fl: seq<Chunk>, i: nat, n: int, k: nat)
    requires Canonical(fl) && i < |fl| && 1 <= n <= fl[i].size
    requires FitsAt(Carve(fl, i, n), k, Carved(fl, i, n))
    ensures Coalesce(Carve(fl, i, n), k, Carved(fl, i, n)) == fl
  {
    var r, c := Carve(fl, i, n), Carved(fl, i, n);
    CarveCanonical(fl, i, n);
    CoalesceCanonical(r, k, c);
    forall u
      ensures Covers(Coalesce(r, k, c), u) <==> Covers(fl, u)
    {
      CarveCovers(fl, i, n, u);
      CoalesceCovers(r, k, c, u);
      if c.Has(u) {
        assert fl[i].Has(u);
      }
    }
    SameUnitsSameList(Coalesce(r, k, c), fl);
  }
}
