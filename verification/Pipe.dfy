/**
  The ring buffer of Lab/code/pipe.c with its free-running 32-bit counters. The buffer is a
  bounded queue, also across the wrap of the counters.
 */
module Pipe {

  const PIPESIZE := 512
  const UINT := 0x1_0000_0000

  type Byte = x: int | 0 <= x < 256

  function Min(a: nat, b: nat): nat {
    if a < b then a else b
  }

  /** The slot of byte j behind the counter `nread`, as the code computes it. */
  function SlotOf(nread: nat, j: nat): nat {
    (nread + j) % UINT % PIPESIZE
  }

  /** Bytes in flight, from the counters alone. */
  function InFlight(nread: nat, nwrite: nat): nat
    requires nread < UINT && nwrite < UINT
  {
    (nwrite + UINT - nread) % UINT
  }

  /** A counter after k more bytes. */
  function Inc(a: nat, k: nat): nat {
    (a + k) % UINT
  }

  /** Up to PIPESIZE bytes in flight occupy distinct slots, whatever the counters are. */
  lemma {:induction false} SlotsDistinct(nread: nat, i: nat, j: nat)
    requires nread < UINT && i < j < PIPESIZE
    ensures SlotOf(nread, i) != SlotOf(nread, j)
  {
    hide SlotOf;
    SlotIsPlain(nread, i);
    SlotIsPlain(nread, j);
    Around(nread, i);
    Around(nread, j);
  }

  /** Going on from a slot, without the remainder. */
  lemma {:induction false} Around(n: nat, j: nat)
    requires j < PIPESIZE
    ensures var r := n % PIPESIZE; (n + j) % PIPESIZE == if r + j < PIPESIZE then r + j else r + j - PIPESIZE
  {
    var q, r := n / PIPESIZE, n % PIPESIZE;
    assert n == q * PIPESIZE + r;
    Remainder(q, r + j);
    Remainder(q + 1, r + j - PIPESIZE);
  }

  lemma {:induction false} Remainder(q: nat, x: int)
    ensures 0 <= x < PIPESIZE ==> (q * PIPESIZE + x) % PIPESIZE == x
  {
  }

  /** Because PIPESIZE divides 2^32, the wrap of a counter does not move a slot. */
  lemma {:induction false} SlotIsPlain(nread: nat, j: nat)
    requires nread < UINT && j <= PIPESIZE
    ensures SlotOf(nread, j) == (nread + j) % PIPESIZE
  {
    if nread + j >= UINT {
      assert (nread + j) % UINT == nread + j - UINT;
      assert UINT == PIPESIZE * 0x80_0000;
      assert (nread + j - PIPESIZE * 0x80_0000) % PIPESIZE == (nread + j) % PIPESIZE;
    } else {
      assert (nread + j) % UINT == nread + j;
    }
  }

  lemma {:induction false} SlotShift(nread: nat, j: nat)
    requires nread < UINT && j < PIPESIZE
    ensures SlotOf((nread + 1) % UINT, j) == SlotOf(nread, j + 1)
  {
    if nread + 1 < UINT {
      assert (nread + 1) % UINT == nread + 1;
    } else {
      assert nread + 1 == UINT;
      assert (nread + 1 + j) % UINT == j;
    }
  }

  /** What the counters say of each other, without the remainder. */
  lemma {:induction false} Apart(nread: nat, nwrite: nat)
    requires nread < UINT && nwrite < UINT
    ensures InFlight(nread, nwrite) == if nwrite >= nread then nwrite - nread else nwrite + UINT - nread
  {
  }

  /** One more byte, without the remainder. */
  lemma {:induction false} Bump(c: nat, k: nat)
    requires c < UINT && k <= UINT
    ensures (c + k) % UINT == if c + k < UINT then c + k else c + k - UINT
  {
  }

  /** The code's tests on the counters. */
  lemma {:induction false} CounterTests(nread: nat, nwrite: nat)
    requires nread < UINT && nwrite < UINT && InFlight(nread, nwrite) <= PIPESIZE
    ensures nread == nwrite <==> InFlight(nread, nwrite) == 0
    ensures nwrite == (nread + PIPESIZE) % UINT <==> InFlight(nread, nwrite) == PIPESIZE
    ensures nwrite == (nread + InFlight(nread, nwrite)) % UINT
    ensures InFlight(nread, nwrite) < PIPESIZE ==> InFlight(nread, (nwrite + 1) % UINT) == InFlight(nread, nwrite) + 1
    ensures InFlight(nread, nwrite) > 0 ==> InFlight((nread + 1) % UINT, nwrite) == InFlight(nread, nwrite) - 1
  {
    hide InFlight;
    Apart(nread, nwrite);
    Bump(nread, PIPESIZE);
    Bump(nread, InFlight(nread, nwrite));
    Bump(nwrite, 1);
    Apart(nread, (nwrite + 1) % UINT);
    Bump(nread, 1);
    Apart((nread + 1) % UINT, nwrite);
  }

  // ---- the ring as a value ----

  datatype Ring = Ring(data: seq<Byte>, nread: nat, nwrite: nat)

  predicate RingOK(r: Ring) {
    |r.data| == PIPESIZE && r.nread < UINT && r.nwrite < UINT && InFlight(r.nread, r.nwrite) <= PIPESIZE
  }

  /** The bytes in flight, oldest first. */
  function Contents(r: Ring): seq<Byte>
    requires RingOK(r)
  {
    seq(InFlight(r.nread, r.nwrite), j requires 0 <= j < InFlight(r.nread, r.nwrite) => r.data[SlotOf(r.nread, j)])
  }

  predicate Full(r: Ring) {
    r.nwrite == (r.nread + PIPESIZE) % UINT
  }

  predicate Empty(r: Ring) {
    r.nread == r.nwrite
  }

  function Put(r: Ring, b: Byte): Ring
    requires |r.data| == PIPESIZE
  {
    Ring(r.data[r.nwrite % PIPESIZE := b], r.nread, Inc(r.nwrite, 1))
  }

  function Taken(r: Ring): Ring {
    r.(nread := Inc(r.nread, 1))
  }

  /** pipewrite's loop: bytes go in until all are written or the ring is full; how many went in. */
  function Fill(r: Ring, bytes: seq<Byte>): (Ring, nat)
    requires |r.data| == PIPESIZE
    decreases |bytes|
  {
    if bytes == [] || Full(r) then (r, 0)
    else
      var (q, k) := Fill(Put(r, bytes[0]), bytes[1..]);
      (q, k + 1)
  }

  /** piperead's loop: at most n bytes come out, fewer when the ring runs empty. */
  function Drain(r: Ring, n: nat): (Ring, seq<Byte>)
    requires |r.data| == PIPESIZE
    decreases n
  {
    if n == 0 || Empty(r) then (r, [])
    else
      var (q, bytes) := Drain(Taken(r), n - 1);
      (q, [r.data[r.nread % PIPESIZE]] + bytes)
  }

  /** A byte put into a ring that is not full comes last. */
  lemma {:induction false} PutAppends(r: Ring, b: Byte)
    requires RingOK(r) && !Full(r)
    ensures RingOK(Put(r, b)) && Contents(Put(r, b)) == Contents(r) + [b]
  {
    CounterTests(r.nread, r.nwrite);
    var n, q := InFlight(r.nread, r.nwrite), Put(r, b);
    assert r.nwrite % PIPESIZE == SlotOf(r.nread, n);
    forall j | 0 <= j < n
      ensures SlotOf(r.nread, j) != SlotOf(r.nread, n)
    {
      SlotsDistinct(r.nread, j, n);
    }
    hide InFlight, SlotOf;
  }

  /** The byte taken from a ring that is not empty is the first. */
  lemma {:induction false} TakeRemoves(r: Ring)
    requires RingOK(r) && !Empty(r)
    ensures RingOK(Taken(r)) && Contents(r) == [r.data[r.nread % PIPESIZE]] + Contents(Taken(r))
  {
    CounterTests(r.nread, r.nwrite);
    SlotIsPlain(r.nread, 0);
    var q := Taken(r);
    hide InFlight;
    forall j | 0 <= j < |Contents(q)|
      ensures Contents(q)[j] == Contents(r)[j + 1]
    {
      SlotShift(r.nread, j);
    }
    hide SlotOf;
  }

  /** The tests of the code, on contents. */
  lemma {:induction false} FullAndEmpty(r: Ring)
    requires RingOK(r)
    ensures Full(r) <==> |Contents(r)| == PIPESIZE
    ensures Empty(r) <==> Contents(r) == []
    ensures |Contents(r)| == InFlight(r.nread, r.nwrite) <= PIPESIZE
  {
    CounterTests(r.nread, r.nwrite);
    hide InFlight, SlotOf;
  }

  /** The write loop appends as many bytes as there is room for. */
  lemma {:induction false} FillAppends(r: Ring, bytes: seq<Byte>)
    requires RingOK(r)
    ensures var (q, k) := Fill(r, bytes);
            k == Min(|bytes|, PIPESIZE - |Contents(r)|) && RingOK(q) && Contents(q) == Contents(r) + bytes[..k]
    decreases |bytes|
  {
    hide Contents, Inc, InFlight;
    FullAndEmpty(r);
    if bytes == [] || Full(r) {
      assert Contents(r) + bytes[..0] == Contents(r);
    } else {
      PutAppends(r, bytes[0]);
      var k := Fill(r, bytes).1;
      hide Put, Full, RingOK;
      FillAppends(Put(r, bytes[0]), bytes[1..]);
      assert [bytes[0]] + bytes[1..][..k - 1] == bytes[..k];
      assert Contents(r) + [bytes[0]] + bytes[1..][..k - 1] == Contents(r) + ([bytes[0]] + bytes[1..][..k - 1]);
    }
  }

  /** The write counter goes up by the bytes written. */
  lemma {:induction false} FillCounts(r: Ring, bytes: seq<Byte>)
    requires |r.data| == PIPESIZE && r.nwrite < UINT
    ensures var (q, k) := Fill(r, bytes);
            q.nread == r.nread && q.nwrite == Inc(r.nwrite, k) < UINT && |q.data| == PIPESIZE
    decreases |bytes|
  {
    IncNone(r.nwrite);
    if bytes != [] && !Full(r) {
      FillCounts(Put(r, bytes[0]), bytes[1..]);
      IncStep(r.nwrite, Fill(r, bytes).1);
      hide Inc;
    }
  }

  /** The read loop removes the oldest bytes in order. */
  lemma {:induction false} DrainRemoves(r: Ring, n: nat)
    requires RingOK(r)
    ensures var (q, bytes) := Drain(r, n);
            bytes == Contents(r)[..Min(n, |Contents(r)|)] && RingOK(q) && Contents(r) == bytes + Contents(q)
    decreases n
  {
    hide Contents, Inc, InFlight;
    FullAndEmpty(r);
    if n == 0 || Empty(r) {
      assert [] + Contents(r) == Contents(r);
    } else {
      assert |r.data| == PIPESIZE;
      TakeRemoves(r);
      hide RingOK, Empty, Taken;
      DrainRemoves(Taken(r), n - 1);
      var b, c, rest := r.data[r.nread % PIPESIZE], Contents(Taken(r)), Drain(Taken(r), n - 1).1;
      ConsTake(b, c, Min(n - 1, |c|));
      assert [b] + rest + Contents(Drain(r, n).0) == [b] + (rest + Contents(Drain(r, n).0));
    }
  }

  /** The read counter goes up by the bytes read. */
  lemma {:induction false} DrainCounts(r: Ring, n: nat)
    requires |r.data| == PIPESIZE && r.nread < UINT
    ensures var (q, bytes) := Drain(r, n);
            q.nwrite == r.nwrite && q.nread == Inc(r.nread, |bytes|) < UINT && q.data == r.data
    decreases n
  {
    IncNone(r.nread);
    if n > 0 && !Empty(r) {
      DrainCounts(Taken(r), n - 1);
      IncStep(r.nread, |Drain(r, n).1|);
      hide Inc;
    }
  }

  lemma {:induction false} ConsTake(b: Byte, s: seq<Byte>, k: nat)
    requires k <= |s|
    ensures ([b] + s)[..k + 1] == [b] + s[..k] && |[b] + s| == |s| + 1
  {
  }

  lemma {:induction false} IncNone(a: nat)
    requires a < UINT
    ensures Inc(a, 0) == a
  {
  }

  lemma {:induction false} IncStep(a: nat, k: nat)
    requires k > 0
    ensures Inc(Inc(a, 1), k - 1) == Inc(a, k) < UINT && Inc(a, 1) < UINT
  {
    var q := (a + 1) / UINT;
    assert a + 1 == q * UINT + (a + 1) % UINT;
    assert a + k == q * UINT + ((a + 1) % UINT + (k - 1));
    ModPlus(q, (a + 1) % UINT + (k - 1));
  }

  lemma {:induction false} ModPlus(q: nat, x: nat)
    ensures (q * UINT + x) % UINT == x % UINT
  {
  }

  // ---- the ring in memory ----

  class Buffer {
    const data: array<Byte>
    var nread: nat
    var nwrite: nat

    function State(): Ring
      reads this, data
    {
      Ring(data[..], nread, nwrite)
    }

    ghost predicate Valid()
      reads this, data
    {
      RingOK(State())
    }

    constructor ()
      ensures Valid() && fresh(data) && Contents(State()) == []
    {
      data := new Byte[PIPESIZE](_ => 0);
      nread, nwrite := 0, 0;
    }

    method PutByte(b: Byte)
      requires data.Length == PIPESIZE
      modifies `nwrite, data
      ensures State() == Put(old(State()), b)
    {
      data[nwrite % PIPESIZE] := b;
      nwrite := (nwrite + 1) % UINT;
    }

    method GetByte() returns (b: Byte)
      requires data.Length == PIPESIZE
      modifies `nread
      ensures State() == Taken(old(State())) && b == old(data[nread % PIPESIZE])
    {
      b := data[nread % PIPESIZE];
      nread := (nread + 1) % UINT;
    }

    /** pipewrite's loop up to the point where it is done or finds the pipe full. */
    method WriteSome(addr: seq<Byte>) returns (i: nat)
      requires Valid()
      modifies `nwrite, data
      ensures Valid() && (State(), i) == Fill(old(State()), addr)
      ensures i == Min(|addr|, PIPESIZE - |old(Contents(State()))|)
      ensures Contents(State()) == old(Contents(State())) + addr[..i]
    {
      assert data.Length == PIPESIZE;
      hide RingOK, Contents, Fill;
      FillAppends(State(), addr);
      i := FillLoop(addr);
    }

    method FillLoop(addr: seq<Byte>) returns (i: nat)
      requires data.Length == PIPESIZE
      modifies `nwrite, data
      ensures (State(), i) == Fill(old(State()), addr)
    {
      hide Fill, Put;
      ghost var r0 := State();
      i := 0;
      assert addr[0..] == addr;
      while i < |addr| && nwrite != (nread + PIPESIZE) % UINT
        invariant i <= |addr|
        invariant Fill(r0, addr) == (Fill(State(), addr[i..]).0, Fill(State(), addr[i..]).1 + i)
        modifies `nwrite, data
      {
        FillStep(State(), addr, i);
        PutByte(addr[i]);
        i := i + 1;
      }
      FillStops(State(), addr[i..]);
    }

    /** piperead's copy loop. */
    method ReadSome(n: nat) returns (bytes: seq<Byte>)
      requires Valid()
      modifies `nread
      ensures Valid() && (State(), bytes) == Drain(old(State()), n)
      ensures bytes == old(Contents(State()))[..Min(n, |old(Contents(State()))|)]
      ensures old(Contents(State())) == bytes + Contents(State())
    {
      assert data.Length == PIPESIZE;
      hide RingOK, Contents, Drain, Taken;
      ghost var r0 := State();
      DrainRemoves(r0, n);
      bytes := [];
      assert bytes + Drain(r0, n).1 == Drain(r0, n).1;
      var i := 0;
      while i < n && nread != nwrite
        invariant i <= n && data.Length == PIPESIZE
        invariant Drain(r0, n) == (Drain(State(), n - i).0, bytes + Drain(State(), n - i).1)
        modifies `nread
      {
        DrainStep(State(), n - i, bytes);
        var b := GetByte();
        bytes := bytes + [b];
        i := i + 1;
      }
      DrainStops(State(), n - i);
      assert bytes + [] == bytes;
    }
  }

  lemma {:induction false} FillStep(r: Ring, addr: seq<Byte>, i: nat)
    requires |r.data| == PIPESIZE && i < |addr| && !Full(r)
    ensures |Put(r, addr[i]).data| == PIPESIZE
    ensures var next := Fill(Put(r, addr[i]), addr[i + 1..]); Fill(r, addr[i..]) == (next.0, next.1 + 1)
  {
    assert addr[i..][0] == addr[i] && addr[i..][1..] == addr[i + 1..];
  }

  lemma {:induction false} FillStops(r: Ring, bytes: seq<Byte>)
    requires |r.data| == PIPESIZE && (bytes == [] || Full(r))
    ensures Fill(r, bytes) == (r, 0)
  {
  }

  lemma {:induction false} DrainStep(r: Ring, n: nat, bytes: seq<Byte>)
    requires |r.data| == PIPESIZE && n > 0 && !Empty(r)
    ensures var b := r.data[r.nread % PIPESIZE];
            && |Taken(r).data| == PIPESIZE && Drain(r, n).0 == Drain(Taken(r), n - 1).0
            && bytes + Drain(r, n).1 == bytes + [b] + Drain(Taken(r), n - 1).1
  {
  }

  lemma {:induction false} DrainStops(r: Ring, n: nat)
    requires |r.data| == PIPESIZE && (n == 0 || Empty(r))
    ensures Drain(r, n) == (r, [])
  {
  }
}
