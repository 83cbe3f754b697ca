/**
  Growing, shrinking, copying and freeing address spaces (Lab/code/vm.c) over the page
  allocator (Lab/code/kalloc.c).
 */
module Vm {
  import opened Options
  import opened VmLayout

  const PGSIZE := 4096
  const KERNBASE := 0x8000_0000
  const WORD := 0x1_0000_0000
  const PTE_W := 2
  const PTE_U := 4

  /** Round up to a page in 32-bit arithmetic. */
  function PgRoundUp(sz: nat): nat {
    (sz + PGSIZE - 1) % WORD / PGSIZE * PGSIZE
  }

  /** The number of pages that hold sz bytes. */
  function PagesFor(sz: nat): nat {
    (sz + PGSIZE - 1) / PGSIZE
  }

  /** The byte address the deallocation loop moves to after address a: when the page table is
      missing, first back one page from the next table's first address. */
  function NextAddr(a: nat, present: bool): nat {
    var b := if present then a else ((a / 0x40_0000 + 1) * 0x40_0000 % WORD - PGSIZE) % WORD;
    (b + PGSIZE) % WORD
  }

  function Min(a: nat, b: nat): nat {
    if a < b then a else b
  }

  lemma {:induction false} NoTable(m: Memory, d: nat, v: nat)
    requires d in m.dirs
    ensures v / ENTRIES !in m.dirs[d] ==> forall w: nat :: w / ENTRIES == v / ENTRIES ==> Lookup(m, d, w).None?
  {
  }

  /** The page after v, or after the rest of v's page table. */
  function NextPage(v: nat, present: bool): nat {
    if present then v + 1 else (v / ENTRIES + 1) * ENTRIES
  }

  /** The jump lands on the first page of the next page table, inside the address space. */
  lemma {:induction false} SkipLands(v: nat, present: bool)
    requires v < USERPAGES
    ensures NextAddr(v * PGSIZE, present) == NextPage(v, present) * PGSIZE
    ensures v < NextPage(v, present) <= USERPAGES
  {
    assert v * PGSIZE / 0x40_0000 == v / ENTRIES;
  }

  /** Past page v, the rest of a missing page table holds nothing to clear. */
  lemma {:induction false} AsIfVisited(m: Memory, owner: map<nat, Role>, extra: set<nat>, all: set<nat>, d: nat,
                                       lo: nat, v: nat, w: nat)
    requires Owned(m, owner, extra, all) && d in m.dirs && v / ENTRIES !in m.dirs[d]
    requires lo <= v < w <= USERPAGES && w <= (v / ENTRIES + 1) * ENTRIES
    ensures ClearRange(m, d, lo, w) == ClearRange(m, d, lo, v + 1)
    ensures Without(owner, d, lo, w) == Without(owner, d, lo, v + 1)
  {
    hide Owned, Without;
    ClearRangeEffect(m, owner, extra, all, d, lo, v + 1);
    NoTable(m, d, v);
    NoneOwned(m, owner, extra, all, d, lo, v + 1, w);
    hide Lookup;
    NothingToClear(m, d, lo, v + 1, w);
  }

  /** Pages without a translation own no frame. */
  lemma {:induction false} NoneOwned(m: Memory, owner: map<nat, Role>, extra: set<nat>, all: set<nat>, d: nat, lo: nat,
                                     v: nat, w: nat)
    requires Owned(m, owner, extra, all) && lo <= v <= w
    requires forall x: nat :: v <= x < w ==> Lookup(m, d, x).None?
    ensures Without(owner, d, lo, w) == Without(owner, d, lo, v)
  {
    forall f | f in owner ensures !InRange(owner[f], d, v, w)
    {
      UserMapped(m, owner, extra, all, f);
    }
  }

  /** Sizes in bytes and in pages. */
  lemma {:induction false} SizeInPages(sz: nat)
    requires sz <= KERNBASE
    ensures PgRoundUp(sz) == PagesFor(sz) * PGSIZE && PagesFor(sz) <= USERPAGES
  {
  }

  lemma {:induction false} RoundUpOrder(a: nat, b: nat)
    requires a <= b
    ensures PagesFor(a) <= PagesFor(b)
  {
  }

  lemma {:induction false} PageBelow(p: nat, sz: nat)
    ensures p * PGSIZE < sz <==> p < PagesFor(sz)
  {
  }

  /** The state once every page from lo up to p has been visited. */
  ghost predicate Visited(m0: Memory, owner0: map<nat, Role>, m: Memory, owner: map<nat, Role>, d: nat, lo: nat,
                          p: nat) {
    m == ClearRange(m0, d, lo, p) && owner == Without(owner0, d, lo, p)
  }

  /** Clearing page v and moving on, over a missing table or not, visits every page in between. */
  lemma {:induction false} VisitStep(m0: Memory, owner0: map<nat, Role>, m: Memory, owner: map<nat, Role>,
                                     extra: set<nat>, all: set<nat>, d: nat, lo: nat, hi: nat, v: nat, present: bool)
    requires Owned(m0, owner0, extra, all) && d in m0.dirs && lo <= v < hi <= USERPAGES
    requires present <==> v / ENTRIES in m0.dirs[d]
    requires Visited(m0, owner0, m, owner, d, lo, v)
    ensures Visited(m0, owner0, ClearPage(m, d, v), Without(owner, d, v, v + 1), d, lo, Min(NextPage(v, present), hi))
  {
    hide Owned, Lookup, Without, ClearPage;
    WithoutThen(owner0, d, lo, v + 1);
    assert ClearRange(m0, d, lo, v + 1) == ClearPage(ClearRange(m0, d, lo, v), d, v);
    if !present && v + 1 < Min(NextPage(v, false), hi) {
      AsIfVisited(m0, owner0, extra, all, d, lo, v, Min(NextPage(v, false), hi));
    }
  }

  /** Every old role is kept; new ones belong to directory d. */
  ghost predicate Grows(owner: map<nat, Role>, owner': map<nat, Role>, d: nat) {
    && (forall f :: f in owner ==> f in owner' && owner'[f] == owner[f])
    && (forall f :: f in owner' && f !in owner ==> owner'[f].dir == d)
  }

  lemma {:induction false} GrowsTrans(a: map<nat, Role>, b: map<nat, Role>, c: map<nat, Role>, d: nat)
    requires Grows(a, b, d) && (b == c || Grows(b, c, d))
    ensures Grows(a, c, d)
  {
  }

  /** Directory d has a page table at index i, added from the free list if it was missing. */
  ghost predicate WithTable(m: Memory, m': Memory, d: nat, i: nat)
    requires d in m.dirs
  {
    && m'.dirs.Keys == m.dirs.Keys && m'.data == m.data
    && m'.dirs[d].Keys == m.dirs[d].Keys + {i}
    && |m'.free| == |m.free| - (if i in m.dirs[d] then 0 else 1)
  }

  /** Contents of the frames in a role are the same. */
  ghost predicate SameData(owner: map<nat, Role>, m: Memory, m': Memory) {
    forall f :: f in owner && f in m.data ==> f in m'.data && m'.data[f] == m.data[f]
  }

  // ---- mapping new pages ----

  lemma {:induction false} SetData(m: Memory, owner: map<nat, Role>, extra: set<nat>, all: set<nat>, f: nat, p: Page)
    requires Owned(m, owner, extra, all) && f in extra
    ensures Owned(m.(data := m.data[f := p]), owner, extra, all)
    ensures SameMaps(m, m.(data := m.data[f := p]))
    ensures SameData(owner, m, m.(data := m.data[f := p]))
  {
    var m' := m.(data := m.data[f := p]);
    assert forall r :: FrameOf(m', r) == FrameOf(m, r);
    hide FrameOf, Lookup;
    SameLookups(m, m');
  }

  /** What a new page holds and how it may be used. */
  datatype Image = Image(bytes: Page, flags: nat)

  /** Page v of d is mapped to a frame that was in no role before, with the wanted contents. */
  ghost predicate Holds(m: Memory, owner0: map<nat, Role>, d: nat, v: nat, want: Image) {
    var e := Lookup(m, d, v);
    && e.Some? && e.value.flags == want.flags && e.value.frame !in owner0
    && e.value.frame in m.data && m.data[e.value.frame] == want.bytes
  }

  /** One page of d was mapped to a new frame, and nothing else changed. */
  ghost predicate PageAdded(m0: Memory, owner0: map<nat, Role>, m: Memory, owner: map<nat, Role>, d: nat, v: nat,
                            want: Image) {
    && m.dirs.Keys == m0.dirs.Keys
    && (forall x: nat, w: nat :: x != d || w != v ==> Lookup(m, x, w) == Lookup(m0, x, w))
    && Holds(m, owner0, d, v, want)
    && Grows(owner0, owner, d)
    && (forall f :: f in owner && f !in owner0 ==> owner[f].Tab? || owner[f] == UserRole(d, v))
    && SameData(owner0, m0, m)
  }

  /** From m0, pages lo up to v of d were mapped to new frames, and nothing else changed. */
  ghost predicate Mapped(m0: Memory, owner0: map<nat, Role>, m: Memory, owner: map<nat, Role>, d: nat, lo: nat, v: nat,
                         want: nat -> Image) {
    && m.dirs.Keys == m0.dirs.Keys
    && (forall x: nat, w: nat :: !(x == d && lo <= w < v) ==> Lookup(m, x, w) == Lookup(m0, x, w))
    && (forall w :: lo <= w < v ==> Holds(m, owner0, d, w, want(w)))
    && Grows(owner0, owner, d)
    && (forall f :: f in owner && f !in owner0 ==> owner[f].Tab? || InRange(owner[f], d, lo, v))
    && SameData(owner0, m0, m)
  }

  lemma {:induction false} MappedStep(m0: Memory, owner0: map<nat, Role>, m: Memory, owner: map<nat, Role>,
                                      extra: set<nat>, all: set<nat>,
                                      m': Memory, owner': map<nat, Role>, d: nat, lo: nat, v: nat, want: nat -> Image)
    requires Owned(m, owner, extra, all) && lo <= v < USERPAGES
    requires Mapped(m0, owner0, m, owner, d, lo, v, want) && PageAdded(m, owner, m', owner', d, v, want(v))
    requires m.data.Keys >= m0.data.Keys
    ensures Mapped(m0, owner0, m', owner', d, lo, v + 1, want)
  {
    hide Owned, Lookup, UserRole;
    assert Holds(m', owner0, d, v, want(v));
    assert InRange(UserRole(d, v), d, v, v + 1) by {
      RoleInRange(d, v);
    }
    hide Holds;
    forall w | lo <= w < v ensures Holds(m', owner0, d, w, want(w))
    {
      HoldsKept(m, owner, extra, all, m', owner0, d, w, want(w));
    }
  }

  lemma {:induction false} RoleInRange(d: nat, v: nat)
    ensures InRange(UserRole(d, v), d, v, v + 1)
  {
  }

  lemma {:induction false} HoldsKept(m: Memory, owner: map<nat, Role>, extra: set<nat>, all: set<nat>, m': Memory,
                                     owner0: map<nat, Role>, d: nat, w: nat, want: Image)
    requires Owned(m, owner, extra, all) && w < USERPAGES && Holds(m, owner0, d, w, want)
    requires Lookup(m', d, w) == Lookup(m, d, w) && SameData(owner, m, m')
    ensures Holds(m', owner0, d, w, want)
  {
    FrameOwned(m, owner, extra, all, d, w);
    hide Owned, Lookup;
  }

  lemma {:induction false} MappedKept(m0: Memory, owner0: map<nat, Role>, m: Memory, owner: map<nat, Role>,
                                      extra: set<nat>, all: set<nat>,
                                      m': Memory, d: nat, lo: nat, v: nat, want: nat -> Image)
    requires Owned(m, owner, extra, all) && v <= USERPAGES
    requires Mapped(m0, owner0, m, owner, d, lo, v, want)
    requires m'.dirs == m.dirs && m'.tabs == m.tabs && SameData(owner, m, m') && m.data.Keys >= m0.data.Keys
    ensures Mapped(m0, owner0, m', owner, d, lo, v, want)
  {
    SameLookups(m, m');
    forall w | lo <= w < v ensures Holds(m', owner0, d, w, want(w))
    {
      HoldsKept(m, owner, extra, all, m', owner0, d, w, want(w));
    }
    hide Owned, Lookup, Holds;
  }

  lemma {:induction false} FrameOwned(m: Memory, owner: map<nat, Role>, extra: set<nat>, all: set<nat>, d: nat, v: nat)
    requires Owned(m, owner, extra, all) && v < USERPAGES && Lookup(m, d, v).Some?
    ensures Lookup(m, d, v).value.frame in owner
  {
    assert FrameOf(m, UserRole(d, v)) == Some(Lookup(m, d, v).value.frame);
  }

  /** Translations are as in m0; the roles that were added are page tables of d. */
  ghost predicate OnlyTablesAdded(m0: Memory, owner0: map<nat, Role>, m: Memory, owner: map<nat, Role>, d: nat) {
    && SameMaps(m0, m) && Grows(owner0, owner, d)
    && (forall f :: f in owner && f !in owner0 ==> owner[f].Tab?)
    && SameData(owner0, m0, m)
  }

  /** Clearing the whole range takes back everything that was mapped in it. */
  lemma {:induction false} UndoMapped(m0: Memory, owner0: map<nat, Role>, extra: set<nat>, all: set<nat>,
                                      m: Memory, owner: map<nat, Role>, m': Memory, d: nat, lo: nat, v: nat, hi: nat,
                                          want: nat -> Image)
    requires Owned(m0, owner0, extra, all)
    requires forall w: nat :: lo <= w < hi ==> Lookup(m0, d, w).None?
    requires Mapped(m0, owner0, m, owner, d, lo, v, want) && v <= hi
    requires Cleared(m, m', owner, d, lo, hi) && m.data.Keys >= m0.data.Keys
    ensures OnlyTablesAdded(m0, owner0, m', Without(owner, d, lo, hi), d)
  {
    hide Owned, Lookup, Holds;
    forall f | f in owner0
      ensures !InRange(owner0[f], d, lo, hi)
    {
      UserMapped(m0, owner0, extra, all, f);
    }
    hide InRange;
    assert SameMaps(m0, m');
  }

  /** Page tables still missing for pages v up to hi, and the frames needed to map them. */
  function Missing(keys: set<nat>, v: nat, hi: nat): set<nat> {
    set i: nat | v / ENTRIES <= i < (hi + ENTRIES - 1) / ENTRIES && i !in keys
  }

  function Need(keys: set<nat>, v: nat, hi: nat): nat {
    if v >= hi then 0 else hi - v + |Missing(keys, v, hi)|
  }

  lemma {:induction false} NeedStep(keys: set<nat>, v: nat, hi: nat)
    requires v < hi
    ensures Need(keys, v, hi) == Need(keys + {v / ENTRIES}, v + 1, hi) + 1 + if v / ENTRIES in keys then 0 else 1
  {
    var i := v / ENTRIES;
    if v + 1 == hi {
      assert Missing(keys, v, hi) == {i} - keys;
    } else {
      assert Missing(keys + {i}, v + 1, hi) == Missing(keys, v, hi) - {i};
    }
  }

  function ZeroPage(v: nat): Image {
    Image(Filled(0), PTE_W + PTE_U)
  }

  lemma {:induction false} MappedNothing(m: Memory, owner: map<nat, Role>, d: nat, lo: nat, want: nat -> Image)
    ensures Mapped(m, owner, m, owner, d, lo, lo, want)
  {
  }

  // ---- the kernel part of a directory ----

  /** A range of kernel pages: a row of the kernel map. */
  datatype Region = Region(v: nat, n: nat, frame: nat, flags: nat)

  ghost predicate KmapOK(kmap: seq<Region>) {
    && (forall k :: 0 <= k < |kmap| ==> USERPAGES <= kmap[k].v && 1 <= kmap[k].n && kmap[k].v + kmap[k].n <= PAGES)
    && (forall j, k :: 0 <= j < k < |kmap| ==> kmap[j].v + kmap[j].n <= kmap[k].v || kmap[k].v + kmap[k].n <= kmap[j].v)
  }

  predicate Inside(r: Region, v: nat) {
    r.v <= v < r.v + r.n
  }

  /** The translation of page v that the kernel map asks for. */
  function KernelEntry(kmap: seq<Region>, v: nat): Option<Pte> {
    if kmap == [] then None
    else
      var r := kmap[|kmap| - 1];
      if Inside(r, v) then Some(Pte(r.frame + (v - r.v), r.flags)) else KernelEntry(kmap[..|kmap| - 1], v)
  }

  predicate TableOf(r: Region, i: nat) {
    r.n > 0 && r.v / ENTRIES <= i <= (r.v + r.n - 1) / ENTRIES
  }

  function RegionTables(r: Region): set<nat> {
    set i: nat | i < ENTRIES && TableOf(r, i)
  }

  lemma {:induction false} RegionStep(r: Region, v: nat)
    requires v < r.n && r.v + r.n <= PAGES
    ensures RegionTables(r.(n := v + 1)) == RegionTables(r.(n := v)) + {(r.v + v) / ENTRIES}
    ensures RegionTables(r.(n := v + 1)) <= RegionTables(r)
  {
    var i: nat := (r.v + v) / ENTRIES;
    assert TableOf(r.(n := v + 1), i);
    forall k: nat ensures TableOf(r.(n := v + 1), k) <==> TableOf(r.(n := v), k) || k == i
    {
    }
    forall k: nat ensures TableOf(r.(n := v + 1), k) ==> TableOf(r, k)
    {
    }
  }

  /** The free list holds a frame for every page table region r lacks in d. */
  ghost predicate Enough(m: Memory, d: nat, r: Region) {
    d in m.dirs && |m.free| + |m.dirs[d].Keys| >= |m.dirs[d].Keys + RegionTables(r)|
  }

  /** Nothing changed but translations of directory d. */
  ghost predicate OthersSame(m0: Memory, m: Memory, d: nat) {
    && m.dirs.Keys == m0.dirs.Keys && m.data == m0.data
    && forall x: nat, w: nat :: x != d ==> Lookup(m, x, w) == Lookup(m0, x, w)
  }

  /** Translations of region r's pages in d are new, the others are as in m0. */
  ghost predicate RegionReads(m0: Memory, m: Memory, d: nat, r: Region) {
    && (forall x: nat, w: nat :: x != d || !Inside(r, w) ==> Lookup(m, x, w) == Lookup(m0, x, w))
    && (forall w: nat :: Inside(r, w) ==> Lookup(m, d, w) == Some(Pte(r.frame + (w - r.v), r.flags)))
  }

  /** From m0, the pages of region r were mapped in d and nothing else; page tables came from the
      free list. */
  ghost predicate RegionMapped(m0: Memory, m: Memory, d: nat, r: Region) {
    && d in m0.dirs && m.dirs.Keys == m0.dirs.Keys && m.data == m0.data
    && RegionReads(m0, m, d, r)
    && m.dirs[d].Keys == m0.dirs[d].Keys + RegionTables(r)
    && |m.free| + |m.dirs[d].Keys| == |m0.free| + |m0.dirs[d].Keys|
  }

  lemma {:induction false} RegionMappedStep(m0: Memory, m: Memory, m': Memory, d: nat, r: Region, v: nat)
    requires v < r.n && r.v + r.n <= PAGES
    requires RegionMapped(m0, m, d, r.(n := v)) && WithTable(m, m', d, (r.v + v) / ENTRIES)
    requires forall x: nat, w: nat ::
      Lookup(m', x, w) == if x == d && w == r.v + v then Some(Pte(r.frame + v, r.flags)) else Lookup(m, x, w)
    ensures RegionMapped(m0, m', d, r.(n := v + 1))
  {
    hide Lookup, RegionTables;
    RegionStep(r, v);
    Insert(m.dirs[d].Keys, (r.v + v) / ENTRIES);
    assert RegionReads(m0, m', d, r.(n := v + 1));
    hide RegionReads;
  }

  lemma {:induction false} RegionMappedNothing(m: Memory, owner: map<nat, Role>, d: nat, r: Region)
    requires d in m.dirs
    ensures RegionMapped(m, m, d, r.(n := 0)) && Grows(owner, owner, d)
  {
    assert RegionTables(r.(n := 0)) == {};
  }

  lemma {:induction false} StillUnmapped(m0: Memory, m: Memory, d: nat, r: Region, v: nat)
    requires v < r.n && r.v + r.n <= PAGES && RegionMapped(m0, m, d, r.(n := v))
    requires forall w: nat :: Inside(r, w) ==> Lookup(m0, d, w).None?
    ensures d in m.dirs && Lookup(m, d, r.v + v).None?
    ensures OthersSame(m0, m, d)
    ensures m.free == [] && (r.v + v) / ENTRIES !in m.dirs[d] ==> !Enough(m0, d, r)
  {
    assert Inside(r, r.v + v);
    RegionStep(r, v);
    hide RegionTables, Lookup;
    SmallerSet(m.dirs[d].Keys, m0.dirs[d].Keys + RegionTables(r));
  }

  lemma {:induction false} TablesMapped(m0: Memory, m: Memory, d: nat, r: Region)
    requires RegionMapped(m0, m, d, r)
    ensures OthersSame(m0, m, d)
    ensures Enough(m0, d, r)
  {
  }

  /** The page tables the kernel map needs. */
  function KernelTables(kmap: seq<Region>): set<nat> {
    if kmap == [] then {} else KernelTables(kmap[..|kmap| - 1]) + RegionTables(kmap[|kmap| - 1])
  }

  lemma {:induction false} NotYetMapped(kmap: seq<Region>, k: nat, l: nat, v: nat)
    requires KmapOK(kmap) && l <= k < |kmap| && Inside(kmap[k], v)
    ensures KernelEntry(kmap[..l], v).None?
  {
    if l > 0 {
      assert kmap[..l][..l - 1] == kmap[..l - 1];
      NotYetMapped(kmap, k, l - 1, v);
    }
  }

  lemma {:induction false} TablesGrow(kmap: seq<Region>, k: nat)
    requires k <= |kmap|
    ensures KernelTables(kmap[..k]) <= KernelTables(kmap)
    decreases |kmap| - k
  {
    if k < |kmap| {
      assert kmap[..k + 1][..k] == kmap[..k];
      TablesGrow(kmap, k + 1);
    } else {
      assert kmap[..k] == kmap;
    }
  }

  lemma {:induction false} Insert(s: set<nat>, i: nat)
    ensures |s + {i}| == |s| + if i in s then 0 else 1
  {
    if i in s {
      assert s + {i} == s;
    }
  }

  lemma {:induction false} SmallerSet(a: set<nat>, b: set<nat>)
    requires a <= b
    ensures |a| <= |b|
    ensures a != b ==> |a| < |b|
  {
    assert b == a + (b - a);
    assert |b| == |a| + |b - a|;
  }

  /** Directory d is new and translates as the first rows of the kernel map say; everything
      else is as in m0. */
  ghost predicate KernelReady(m0: Memory, owner0: map<nat, Role>, m: Memory, owner: map<nat, Role>, d: nat,
                              kmap: seq<Region>) {
    && d !in m0.dirs && d !in owner0 && m.dirs.Keys == m0.dirs.Keys + {d} && m.data == m0.data
    && (forall x: nat, w: nat :: x != d ==> Lookup(m, x, w) == Lookup(m0, x, w))
    && (forall w: nat :: Lookup(m, d, w) == KernelEntry(kmap, w))
    && m.dirs[d].Keys == KernelTables(kmap)
    && |m.free| + |m.dirs[d].Keys| == |m0.free| - 1
    && Grows(owner0, owner, d)
  }

  lemma {:induction false} KernelReadyStep(m0: Memory, owner0: map<nat, Role>, m: Memory, owner: map<nat, Role>,
                                           m': Memory, owner': map<nat, Role>, d: nat, kmap: seq<Region>, k: nat)
    requires k < |kmap| && KernelReady(m0, owner0, m, owner, d, kmap[..k])
    requires RegionMapped(m, m', d, kmap[k]) && Grows(owner, owner', d)
    ensures KernelReady(m0, owner0, m', owner', d, kmap[..k + 1])
  {
    hide Lookup, RegionTables, Grows, KernelEntry, KernelTables, Inside;
    GrowsTrans(owner0, owner, owner', d);
    KernelTablesStep(kmap, k);
    forall w: nat ensures Lookup(m', d, w) == KernelEntry(kmap[..k + 1], w)
    {
      KernelEntryStep(kmap, k, w);
    }
  }

  lemma {:induction false} KernelTablesStep(kmap: seq<Region>, k: nat)
    requires k < |kmap|
    ensures KernelTables(kmap[..k + 1]) == KernelTables(kmap[..k]) + RegionTables(kmap[k])
  {
    assert kmap[..k + 1][..k] == kmap[..k];
  }

  lemma {:induction false} KernelEntryStep(kmap: seq<Region>, k: nat, w: nat)
    requires k < |kmap|
    ensures !Inside(kmap[k], w) ==> KernelEntry(kmap[..k + 1], w) == KernelEntry(kmap[..k], w)
    ensures Inside(kmap[k], w) ==>
      KernelEntry(kmap[..k + 1], w) == Some(Pte(kmap[k].frame + (w - kmap[k].v), kmap[k].flags))
  {
    assert kmap[..k + 1][..k] == kmap[..k];
  }

  lemma {:induction false} ReadySize(m0: Memory, owner0: map<nat, Role>, m: Memory, owner: map<nat, Role>, d: nat,
                                     kmap: seq<Region>)
    requires KernelReady(m0, owner0, m, owner, d, kmap)
    ensures |m0.free| >= 1 + |KernelTables(kmap)|
  {
  }

  /** The next region is not mapped yet; without frames for its tables, the map cannot be built. */
  lemma {:induction false} NextRegion(m0: Memory, owner0: map<nat, Role>, m: Memory, owner: map<nat, Role>, d: nat,
                                      kmap: seq<Region>, k: nat)
    requires KmapOK(kmap) && k < |kmap| && KernelReady(m0, owner0, m, owner, d, kmap[..k])
    ensures d in m.dirs && forall v: nat :: Inside(kmap[k], v) ==> Lookup(m, d, v).None?
    ensures !Enough(m, d, kmap[k]) ==> |m0.free| < 1 + |KernelTables(kmap)|
  {
    forall v: nat | Inside(kmap[k], v) ensures Lookup(m, d, v).None?
    {
      NotYetMapped(kmap, k, k, v);
    }
    hide Lookup, KernelEntry, RegionTables;
    assert kmap[..k + 1][..k] == kmap[..k];
    TablesGrow(kmap, k + 1);
    SmallerSet(KernelTables(kmap[..k + 1]), KernelTables(kmap));
  }

  /** Directory d is new, everything else is as in m0. */
  ghost predicate OnlyNew(m0: Memory, owner0: map<nat, Role>, m: Memory, owner: map<nat, Role>, d: nat) {
    && d !in m0.dirs && d !in owner0 && m.dirs.Keys == m0.dirs.Keys + {d}
    && (forall x: nat, w: nat :: x != d ==> Lookup(m, x, w) == Lookup(m0, x, w))
    && Grows(owner0, owner, d) && SameData(owner0, m0, m) && m.data.Keys >= m0.data.Keys
  }

  lemma {:induction false} StillNew(m0: Memory, owner0: map<nat, Role>, m: Memory, owner: map<nat, Role>, m': Memory,
                                    owner': map<nat, Role>, d: nat, kmap: seq<Region>)
    requires KernelReady(m0, owner0, m, owner, d, kmap)
    requires OthersSame(m, m', d) && Grows(owner, owner', d)
    ensures OnlyNew(m0, owner0, m', owner', d)
  {
    GrowsTrans(owner0, owner, owner', d);
    hide Lookup, Grows, KernelEntry, KernelTables;
  }

  /** Translations, roles and contents are as before. */
  ghost predicate Untouched(m0: Memory, owner0: map<nat, Role>, m: Memory, owner: map<nat, Role>) {
    SameMaps(m0, m) && owner == owner0 && SameData(owner0, m0, m)
  }

  /** Freeing the new directory leaves no trace of it. */
  lemma {:induction false} NothingLeft(m0: Memory, owner0: map<nat, Role>, extra: set<nat>, all: set<nat>, m: Memory,
                                       owner: map<nat, Role>, m': Memory, d: nat)
    requires Owned(m0, owner0, extra, all) && OnlyNew(m0, owner0, m, owner, d)
    requires m'.dirs == m.dirs - {d} && SameData(OthersOnly(owner, d), m, m')
    requires forall x, v: nat :: x in m'.dirs ==> Lookup(m', x, v) == Lookup(m, x, v)
    ensures Untouched(m0, owner0, m', OthersOnly(owner, d))
  {
    forall f | f in owner0 ensures owner0[f].dir != d
    {
      assert FrameOf(m0, owner0[f]) == Some(f);
    }
    assert OthersOnly(owner, d) == owner0;
    assert m'.dirs.Keys == m0.dirs.Keys;
    hide Owned, FrameOf;
  }

  // ---- copying ----

  function CopyImage(m: Memory, src: nat, v: nat): Image {
    var e := Lookup(m, src, v);
    if e.Some? && e.value.frame in m.data then Image(m.data[e.value.frame], e.value.flags) else Image([], 0)
  }

  /** Page tables, and all frames, that n user pages from address 0 take. */
  function Tables(n: nat): nat {
    (n + ENTRIES - 1) / ENTRIES
  }

  function Frames(n: nat): nat {
    n + Tables(n)
  }

  /** Frames left for user pages once the kernel part is set up. */
  function Spare(free: nat, kmap: seq<Region>): int {
    free - 1 - |KernelTables(kmap)|
  }

  /** Directory c is new: its first n pages are copies in frames of their own, the rest is the
      kernel map. */
  ghost predicate Copied(m0: Memory, owner0: map<nat, Role>, m: Memory, owner: map<nat, Role>, src: nat, c: nat,
                         n: nat, kmap: seq<Region>) {
    && OnlyNew(m0, owner0, m, owner, c)
    && (forall v: nat :: v < n ==> Holds(m, owner0, c, v, CopyImage(m0, src, v)))
    && (forall v: nat :: v >= n ==> Lookup(m, c, v) == KernelEntry(kmap, v))
  }

  /** Of the user page tables, those of the first v pages are there. */
  ghost predicate FirstTables(keys: set<nat>, v: nat) {
    forall i: nat :: i < USERTABS ==> (i in keys <==> i < Tables(v))
  }

  lemma {:induction false} NeedFresh(keys: set<nat>, v: nat, n: nat)
    requires FirstTables(keys, v) && v <= n <= USERPAGES
    ensures Need(keys, v, n) == Frames(n) - Frames(v)
  {
    if v < n {
      assert Missing(keys, v, n) == Interval(Tables(v), Tables(n));
      IntervalSize(Tables(v), Tables(n));
    }
  }

  function Interval(a: nat, b: nat): (s: set<nat>)
    ensures forall i: nat :: i in s <==> a <= i < b
    decreases b
  {
    if a < b then Interval(a, b - 1) + {b - 1} else {}
  }

  lemma {:induction false} IntervalSize(a: nat, b: nat)
    requires a <= b
    ensures |Interval(a, b)| == b - a
    decreases b
  {
    if a < b {
      IntervalSize(a, b - 1);
    }
  }

  predicate Leaks(spare: int) {
    spare % (ENTRIES + 1) == 1
  }

  /** Copying stops at page v with a page in hand exactly when the spare frames are one more than
      a multiple of a full table's pages and the table. */
  lemma {:induction false} LeakCondition(spare: nat, v: nat, n: nat, free: nat)
    requires v < n && free == spare - Frames(v)
    requires free < 1 + if v % ENTRIES == 0 then 1 else 0
    ensures free == 1 <==> Leaks(spare)
    ensures spare < Frames(n)
  {
    var q, s := v / ENTRIES, v % ENTRIES;
    assert v == ENTRIES * q + s;
    if s == 0 {
      assert spare == 1025 * q + free;
    } else {
      assert spare == 1025 * q + s + 1;
    }
  }

  function Copies(m: Memory, src: nat): nat -> Image {
    (v: nat) => CopyImage(m, src, v)
  }

  /** The first n pages of src are mapped. */
  ghost predicate ToCopy(m: Memory, src: nat, n: nat) {
    src in m.dirs && forall v: nat :: v < n ==> Lookup(m, src, v).Some?
  }

  /** Directory c is new and has no user pages and no user page tables. */
  ghost predicate ReadyFor(m0: Memory, owner0: map<nat, Role>, m: Memory, owner: map<nat, Role>, c: nat) {
    && OnlyNew(m0, owner0, m, owner, c) && FirstTables(m.dirs[c].Keys, 0)
    && forall v: nat :: v < USERPAGES ==> Lookup(m, c, v).None?
  }

  lemma {:induction false} KernelHigh(kmap: seq<Region>, l: nat)
    requires KmapOK(kmap) && l <= |kmap|
    ensures forall v: nat :: v < USERPAGES ==> KernelEntry(kmap[..l], v).None?
    ensures forall i :: i in KernelTables(kmap[..l]) ==> USERTABS <= i
  {
    if l > 0 {
      assert kmap[..l][..l - 1] == kmap[..l - 1];
      KernelHigh(kmap, l - 1);
    }
  }

  lemma {:induction false} ReadyToCopy(m0: Memory, owner0: map<nat, Role>, m: Memory, owner: map<nat, Role>, c: nat,
                                       kmap: seq<Region>)
    requires KmapOK(kmap) && KernelReady(m0, owner0, m, owner, c, kmap)
    ensures ReadyFor(m0, owner0, m, owner, c) && |m.free| == Spare(|m0.free|, kmap)
  {
    hide Lookup, KernelEntry, KernelTables, KmapOK, Grows;
    assert kmap[..|kmap|] == kmap;
    KernelHigh(kmap, |kmap|);
  }

  lemma {:induction false} StartsReady(m0: Memory, owner0: map<nat, Role>, m: Memory, owner: map<nat, Role>, c: nat,
                                       n: nat)
    requires ReadyFor(m0, owner0, m, owner, c) && n <= USERPAGES
    ensures c in m.dirs && FirstTables(m.dirs[c].Keys, 0) && Need(m.dirs[c].Keys, 0, n) == Frames(n)
    ensures forall f :: f in owner0 ==> f in owner
  {
    NeedFresh(m.dirs[c].Keys, 0, n);
  }

  /** The next page to copy reads as it did at the start, and is not mapped in the copy yet. */
  lemma {:induction false} SourcePage(m0: Memory, owner0: map<nat, Role>, extra: set<nat>, all: set<nat>, m1: Memory,
                                      owner1: map<nat, Role>,
                                      m: Memory, owner: map<nat, Role>, c: nat, src: nat, v: nat, n: nat)
    requires Owned(m0, owner0, extra, all) && ReadyFor(m0, owner0, m1, owner1, c) && ToCopy(m0, src, n)
    requires v < n <= USERPAGES
    requires Mapped(m1, owner1, m, owner, c, 0, v, Copies(m0, src)) && m.data.Keys >= m1.data.Keys
    ensures Lookup(m1, c, v).None? && Lookup(m, src, v).Some? && Lookup(m, src, v).value.frame in m.data
    ensures Image(m.data[Lookup(m, src, v).value.frame], Lookup(m, src, v).value.flags) == Copies(m0, src)(v)
  {
    assert Lookup(m, src, v) == Lookup(m1, src, v) == Lookup(m0, src, v);
    FrameOwned(m0, owner0, extra, all, src, v);
    assert Lookup(m0, src, v).value.frame in m0.data;
    hide Lookup, Owned;
  }

  lemma {:induction false} StillCopying(m0: Memory, owner0: map<nat, Role>, m1: Memory, owner1: map<nat, Role>,
                                        m: Memory, owner: map<nat, Role>, c: nat, lo: nat, v: nat, want: nat -> Image)
    requires ReadyFor(m0, owner0, m1, owner1, c) && Mapped(m1, owner1, m, owner, c, lo, v, want)
    requires m.data.Keys >= m1.data.Keys
    ensures OnlyNew(m0, owner0, m, owner, c)
  {
    GrowsTrans(owner0, owner1, owner, c);
    hide Lookup, Holds;
  }

  lemma {:induction false} Stuck(keys: set<nat>, spare: nat, v: nat, n: nat, free: nat)
    requires FirstTables(keys, v) && v < n <= USERPAGES
    requires free - Need(keys, v, n) == spare - Frames(n)
    requires free < 1 + if v / ENTRIES in keys then 0 else 1
    ensures free == 1 <==> Leaks(spare)
    ensures spare < Frames(n)
  {
    hide Need, Frames, FirstTables, Leaks;
    NeedFresh(keys, v, n);
    TableThere(keys, v, n);
    LeakCondition(spare, v, n, free);
  }

  lemma {:induction false} TableThere(keys: set<nat>, v: nat, n: nat)
    requires FirstTables(keys, v) && v < n <= USERPAGES
    ensures v / ENTRIES in keys <==> v % ENTRIES != 0
  {
  }

  lemma {:induction false} FirstTablesStep(keys: set<nat>, v: nat)
    requires FirstTables(keys, v)
    ensures FirstTables(keys + {v / ENTRIES}, v + 1)
  {
  }

  lemma {:induction false} AllCopied(m0: Memory, owner0: map<nat, Role>, m1: Memory, owner1: map<nat, Role>, m: Memory,
                                     owner: map<nat, Role>, src: nat, c: nat, n: nat, kmap: seq<Region>)
    requires KernelReady(m0, owner0, m1, owner1, c, kmap) && OnlyNew(m0, owner0, m, owner, c)
    requires Mapped(m1, owner1, m, owner, c, 0, n, Copies(m0, src))
    ensures Copied(m0, owner0, m, owner, src, c, n, kmap)
  {
    hide Lookup, CopyImage, OnlyNew, KernelEntry;
    forall v: nat | v < n ensures Holds(m, owner0, c, v, CopyImage(m0, src, v))
    {
      assert Holds(m, owner1, c, v, Copies(m0, src)(v));
    }
  }

  lemma {:induction false} WasFree(m0: Memory, owner0: map<nat, Role>, extra0: set<nat>, m: Memory,
                                   owner: map<nat, Role>, extra: set<nat>, all: set<nat>, f: nat)
    requires Owned(m0, owner0, extra0, all) && Owned(m, owner, extra, all)
    requires f in extra && f !in extra0 && f !in owner0
    ensures f in m0.free
  {
  }

  lemma {:induction false} NewIsThere(m0: Memory, owner0: map<nat, Role>, m: Memory, owner: map<nat, Role>, c: nat)
    requires OnlyNew(m0, owner0, m, owner, c)
    ensures c in m.dirs
  {
  }

  lemma {:induction false} UserCleared(m: Memory, m': Memory, owner: map<nat, Role>, d: nat)
    requires Cleared(m, m', owner, d, 0, USERPAGES)
    ensures OthersOnly(Without(owner, d, 0, USERPAGES), d) == OthersOnly(owner, d)
    ensures SameData(OthersOnly(owner, d), m, m') && m'.dirs == m.dirs
    ensures forall v: nat :: v < USERPAGES ==> Lookup(m', d, v).None?
    ensures forall x: nat, v: nat :: x != d ==> Lookup(m', x, v) == Lookup(m, x, v)
  {
    hide Lookup;
  }

  lemma {:induction false} OtherDirs(m: Memory, m': Memory, d: nat)
    requires m'.dirs == m.dirs - {d} && m'.tabs == m.tabs
    ensures forall x: nat, v: nat :: x in m'.dirs ==> Lookup(m', x, v) == Lookup(m, x, v)
  {
  }

  lemma {:induction false} NotOwned(m: Memory, owner: map<nat, Role>, extra: set<nat>, all: set<nat>, f: nat)
    requires Owned(m, owner, extra, all) && f in extra
    ensures f !in owner
  {
  }

  class Kernel {
    var m: Memory
    ghost var owner: map<nat, Role>
    ghost var extra: set<nat>
    ghost const all: set<nat>

    ghost predicate Valid()
      reads this
    {
      Owned(m, owner, extra, all)
    }

    constructor (frames: seq<nat>, data: map<nat, Page>)
      requires Distinct(frames) && 0 !in frames && forall f :: f in frames ==> f in data
      ensures Valid() && m == Memory(frames, map[], map[], data) && owner == map[] && extra == {}
      ensures all == set f | f in frames
    {
      m := Memory(frames, map[], map[], data);
      owner, extra, all := map[], {}, set f | f in frames;
    }

    method Kalloc() returns (r: Option<nat>)
      requires Valid()
      modifies `m, `extra
      ensures Valid()
      ensures r.None? <==> old(m.free) == []
      ensures r.None? ==> m == old(m) && extra == old(extra)
      ensures r.Some? ==> old(m.free) == [r.value] + m.free && m == old(m).(free := m.free)
      ensures r.Some? ==> r.value !in old(extra) && r.value !in owner && extra == old(extra) + {r.value}
    {
      if m.free == [] {
        return None;
      }
      TakeFrame(m, owner, extra, all);
      r := Some(m.free[0]);
      m, extra := m.(free := m.free[1..]), extra + {m.free[0]};
    }

    method Kfree(f: nat)
      requires Valid() && f in extra
      modifies `m, `extra
      ensures Valid()
      ensures m == Freed(old(m), f) && extra == old(extra) - {f}
    {
      GiveFrame(m, owner, extra, all, f, Filled(1));
      m, extra := Freed(m, f), extra - {f};
    }

    method WalkPgDir(d: nat, v: nat, alloc: bool) returns (ok: bool)
      requires Valid() && d in m.dirs && v < PAGES
      modifies `m, `extra, `owner
      ensures Valid() && extra == old(extra) && SameMaps(old(m), m)
      ensures ok <==> v / ENTRIES in old(m).dirs[d] || (alloc && old(m.free) != [])
      ensures ok ==> HasTable(m, d, v)
      ensures !ok || v / ENTRIES in old(m).dirs[d] ==> m == old(m) && owner == old(owner)
      ensures ok ==> WithTable(old(m), m, d, v / ENTRIES)
      ensures ok ==> Grows(old(owner), owner, d)
      ensures forall f :: f in owner && f !in old(owner) ==> owner[f].Tab?
    {
      var i := v / ENTRIES;
      if i in m.dirs[d] {
        TableDistinct(m, owner, extra, all, d, i);
        return true;
      }
      if !alloc {
        return false;
      }
      var f := Kalloc();
      if f.None? {
        return false;
      }
      AddTableEffect(m, owner, extra, all, d, i, f.value);
      m, owner, extra := AddTable(m, d, i, f.value), owner[f.value := Tab(d, i)], extra - {f.value};
      ok := true;
      assert extra == old(extra);
    }

    /** One turn of the mapping loop. */
    method MapPage(d: nat, v: nat, e: Pte) returns (ok: bool)
      requires Valid() && d in m.dirs && v < PAGES && Lookup(m, d, v).None?
      requires v < USERPAGES ==> e.frame in extra
      modifies `m, `extra, `owner
      ensures Valid()
      ensures ok <==> v / ENTRIES in old(m).dirs[d] || old(m.free) != []
      ensures !ok ==> m == old(m) && owner == old(owner) && extra == old(extra)
      ensures ok ==> WithTable(old(m), m, d, v / ENTRIES) && Grows(old(owner), owner, d)
      ensures ok ==> forall x, w :: Lookup(m, x, w) == if x == d && w == v then Some(e) else Lookup(old(m), x, w)
      ensures ok ==> extra == if v < USERPAGES then old(extra) - {e.frame} else old(extra)
      ensures ok && v < USERPAGES ==> e.frame in owner && owner[e.frame] == UserRole(d, v)
      ensures forall f :: f in owner && f !in old(owner) ==> owner[f].Tab? || (v < USERPAGES && f == e.frame)
    {
      ok := WalkPgDir(d, v, true);
      if !ok {
        return;
      }
      assert Lookup(m, d, v).None?;
      SetEntryEffect(m, owner, extra, all, d, v, Some(e));
      if v < USERPAGES {
        PlaceUser(m, owner, extra, all, d, v, e);
        m, owner, extra := SetEntry(m, d, v, Some(e)), owner[e.frame := UserRole(d, v)], extra - {e.frame};
      } else {
        PlaceKernel(m, owner, extra, all, d, v, e);
        m := SetEntry(m, d, v, Some(e));
      }
    }

    /** One turn of the deallocation loop; false when there is no page table. */
    method DeallocPage(d: nat, v: nat) returns (present: bool)
      requires Valid() && d in m.dirs && v < USERPAGES
      modifies `m, `extra, `owner
      ensures Valid() && extra == old(extra)
      ensures m == ClearPage(old(m), d, v) && owner == Without(old(owner), d, v, v + 1)
      ensures m.dirs == old(m).dirs
      ensures present <==> v / ENTRIES in old(m).dirs[d]
    {
      present := WalkPgDir(d, v, false);
      ClearPageEffect(m, owner, extra, all, d, v);
      NoTable(m, d, v);
      if present {
        var t := m.dirs[d][v / ENTRIES].frame;
        if v % ENTRIES in m.tabs[t] {
          var f := m.tabs[t][v % ENTRIES].frame;
          SetEntryEffect(m, owner, extra, all, d, v, None);
          assert FrameOf(m, UserRole(d, v)) == Some(f);
          RemoveOwned(m, SetEntry(m, d, v, None), owner, extra, all, UserRole(d, v), f);
          OnlyOneInRange(m, owner, extra, all, d, v, f);
          assert f != 0;
          m, owner, extra := SetEntry(m, d, v, None), owner - {f}, extra + {f};
          hide Owned, Lookup, FrameOf, Without;
          Kfree(f);
        }
      }
      owner := Without(old(owner), d, v, v + 1);
    }

    /** The deallocation loop may jump over a missing page table: the state is as if every page
        had been visited, and no address wraps around. */
    method DeallocLoop(d: nat, start: nat, oldsz: nat)
      requires Valid() && d in m.dirs && start % PGSIZE == 0 && start <= KERNBASE && oldsz <= KERNBASE
      modifies `m, `extra, `owner
      ensures Valid() && extra == old(extra)
      ensures Visited(old(m), old(owner), m, owner, d, start / PGSIZE, PagesFor(oldsz))
    {
      hide Owned, Lookup, Without, Cleared, ClearPage, PagesFor;
      ghost var m0, owner0, lo, hi := m, owner, start / PGSIZE, PagesFor(oldsz);
      ClearedNothing(m, owner, d, lo, Min(lo, hi));
      SizeInPages(oldsz);
      hide ClearRange;
      var a := start;
      ghost var p := lo;
      while a < oldsz
        invariant a == p * PGSIZE && lo <= p <= USERPAGES
        invariant Valid() && extra == old(extra)
        invariant Owned(m0, owner0, extra, all) && m.dirs == m0.dirs
        invariant Visited(m0, owner0, m, owner, d, lo, Min(p, hi))
        decreases USERPAGES - p
      {
        ghost var m1, owner1 := m, owner;
        hide NextAddr, NextPage, Visited;
        PageBelow(p, oldsz);
        var present := DeallocPage(d, a / PGSIZE);
        VisitStep(m0, owner0, m1, owner1, extra, all, d, lo, hi, p, present);
        SkipLands(p, present);
        a, p := NextAddr(a, present), NextPage(p, present);
      }
      PageBelow(p, oldsz);
    }

    method DeallocUvm(d: nat, oldsz: nat, newsz: nat) returns (r: nat)
      requires Valid() && d in m.dirs && oldsz <= KERNBASE
      modifies `m, `extra, `owner
      ensures Valid() && extra == old(extra)
      ensures newsz >= oldsz ==> r == oldsz && m == old(m) && owner == old(owner)
      ensures newsz < oldsz ==> r == newsz && m == ClearRange(old(m), d, PagesFor(newsz), PagesFor(oldsz))
      ensures newsz < oldsz ==> owner == Without(old(owner), d, PagesFor(newsz), PagesFor(oldsz))
    {
      if newsz >= oldsz {
        return oldsz;
      }
      SizeInPages(newsz);
      DeallocLoop(d, PgRoundUp(newsz), oldsz);
      r := newsz;
    }

    /** Free the page tables of a directory that is no longer in use. */
    method FreeTables(dir: Table)
      requires Valid() && TableFrames(dir, 0) <= extra
      requires forall i, k :: i in dir && k in dir && i != k ==> dir[i].frame != dir[k].frame
      requires forall i :: i in dir ==> i < ENTRIES
      modifies `m, `extra
      ensures Valid() && extra == old(extra) - TableFrames(dir, 0)
      ensures m.dirs == old(m.dirs) && m.tabs == old(m.tabs) && SameData(owner, old(m), m)
    {
      hide Owned;
      var i := 0;
      while i < ENTRIES
        invariant i <= ENTRIES && Valid()
        invariant extra == old(extra) - (TableFrames(dir, 0) - TableFrames(dir, i))
        invariant m.dirs == old(m.dirs) && m.tabs == old(m.tabs) && SameData(owner, old(m), m)
      {
        if i in dir {
          assert dir[i].frame in TableFrames(dir, i) && dir[i].frame !in TableFrames(dir, i + 1);
          assert TableFrames(dir, i) == TableFrames(dir, i + 1) + {dir[i].frame};
          assert dir[i].frame !in owner by {
            NotOwned(m, owner, extra, all, dir[i].frame);
          }
          Kfree(dir[i].frame);
        } else {
          assert TableFrames(dir, i) == TableFrames(dir, i + 1);
        }
        i := i + 1;
      }
      assert TableFrames(dir, ENTRIES) == {};
    }

    /** Every frame of the directory, its page tables and its user pages is freed once, and
        nothing else changes hands. */
    method FreeVm(d: nat)
      requires Valid() && d in m.dirs
      modifies `m, `extra, `owner
      ensures Valid() && extra == old(extra)
      ensures m.dirs == old(m.dirs) - {d} && owner == OthersOnly(old(owner), d)
      ensures forall x, v: nat :: x in m.dirs ==> Lookup(m, x, v) == Lookup(old(m), x, v)
      ensures SameData(owner, old(m), m)
    {
      hide Owned, ClearRange, Without, Cleared, Lookup, OthersOnly, TableFrames;
      var _ := DeallocUvm(d, KERNBASE, 0);
      ClearRangeEffect(old(m), old(owner), extra, all, d, 0, USERPAGES);
      UserCleared(old(m), m, old(owner), d);
      Detach(m, owner, extra, all, d);
      TablesDistinct(m, owner, extra, all, d);
      var dir := m.dirs[d];
      ghost var m1 := m;
      m, owner, extra := m.(dirs := m.dirs - {d}), OthersOnly(owner, d), extra + ({d} + TableFrames(dir, 0));
      FreeTables(dir);
      assert d !in owner by {
        NotOwned(m, owner, extra, all, d);
      }
      Kfree(d);
      OtherDirs(m1, m, d);
      assert extra == old(extra);
    }

    /** Allocate a page, fill it and map it; on failure `mem` is the page that found no table. */
    method NewPage(d: nat, v: nat, want: Image) returns (ok: bool, mem: Option<nat>)
      requires Valid() && d in m.dirs && v < USERPAGES && Lookup(m, d, v).None?
      modifies `m, `extra, `owner
      ensures Valid() && m.dirs.Keys == old(m.dirs.Keys) && m.data.Keys >= old(m.data.Keys)
      ensures ok <==> |old(m.free)| >= 1 + if v / ENTRIES in old(m).dirs[d] then 0 else 1
      ensures ok ==> PageAdded(old(m), old(owner), m, owner, d, v, want) && extra == old(extra)
      ensures ok ==> m.dirs[d].Keys == old(m).dirs[d].Keys + {v / ENTRIES}
      ensures ok ==> |m.free| == |old(m.free)| - 1 - if v / ENTRIES in old(m).dirs[d] then 0 else 1
      ensures !ok ==>
        owner == old(owner) && m.dirs == old(m.dirs) && m.tabs == old(m.tabs) && SameData(owner, old(m), m)
      ensures !ok ==> extra == old(extra) + if mem.Some? then {mem.value} else {}
      ensures !ok && mem.Some? ==> mem.value !in old(extra) && mem.value !in owner
      ensures !ok ==> (mem.Some? <==> |old(m.free)| == 1)
    {
      mem := Kalloc();
      if mem.None? {
        return false, None;
      }
      SetData(m, owner, extra, all, mem.value, want.bytes);
      m := m.(data := m.data[mem.value := want.bytes]);
      ok := MapPage(d, v, Pte(mem.value, want.flags));
    }

    /** Map page v next, of the pages lo up to hi; `spare` is the frames left over, or lacking,
        for all of them. */
    method MapNext(d: nat, v: nat, image: Image, ghost m0: Memory, ghost owner0: map<nat, Role>, ghost lo: nat,
                   ghost hi: nat,
                   ghost want: nat -> Image, ghost spare: int) returns (ok: bool, mem: Option<nat>)
      requires Valid() && d in m.dirs && lo <= v < hi <= USERPAGES && image == want(v)
      requires m.data.Keys >= m0.data.Keys && Lookup(m0, d, v).None?
      requires Mapped(m0, owner0, m, owner, d, lo, v, want)
      requires |m.free| - Need(m.dirs[d].Keys, v, hi) == spare
      modifies `m, `extra, `owner
      ensures Valid() && d in m.dirs && m.data.Keys >= m0.data.Keys
      ensures ok ==> Mapped(m0, owner0, m, owner, d, lo, v + 1, want) && extra == old(extra)
      ensures ok ==> |m.free| - Need(m.dirs[d].Keys, v + 1, hi) == spare
      ensures ok ==> m.dirs[d].Keys == old(m).dirs[d].Keys + {v / ENTRIES}
      ensures !ok ==> Mapped(m0, owner0, m, owner, d, lo, v, want) && spare < 0
      ensures !ok ==> extra == old(extra) + if mem.Some? then {mem.value} else {}
      ensures !ok && mem.Some? ==> mem.value !in old(extra) && mem.value !in owner0
      ensures !ok ==> (mem.Some? <==> |old(m.free)| == 1) && m.dirs.Keys == old(m.dirs.Keys)
      ensures !ok ==> |old(m.free)| < 1 + if v / ENTRIES in old(m).dirs[d] then 0 else 1
    {
      hide Owned, Lookup, Need, Holds;
      ghost var m1, owner1, extra1 := m, owner, extra;
      NeedStep(m.dirs[d].Keys, v, hi);
      ok, mem := NewPage(d, v, image);
      hide InRange, SameData;
      if ok {
        MappedStep(m0, owner0, m1, owner1, extra1, all, m, owner, d, lo, v, want);
      } else {
        MappedKept(m0, owner0, m1, owner1, extra1, all, m, d, lo, v, want);
      }
    }

    /** Take back the pages mapped so far, then the page that found no table. */
    method GiveUp(d: nat, oldsz: nat, newsz: nat, mem: Option<nat>, ghost m0: Memory, ghost owner0: map<nat, Role>,
                  ghost extra0: set<nat>,
                  ghost v: nat, ghost want: nat -> Image)
      requires Valid() && d in m.dirs && oldsz < newsz < KERNBASE && v <= PagesFor(newsz)
      requires Owned(m0, owner0, extra0, all) && m.data.Keys >= m0.data.Keys
      requires forall w: nat :: PagesFor(oldsz) <= w < PagesFor(newsz) ==> Lookup(m0, d, w).None?
      requires Mapped(m0, owner0, m, owner, d, PagesFor(oldsz), v, want)
      requires extra == extra0 + if mem.Some? then {mem.value} else {}
      requires mem.Some? ==> mem.value !in extra0 && mem.value !in owner0
      modifies `m, `extra, `owner
      ensures Valid() && extra == extra0
      ensures OnlyTablesAdded(m0, owner0, m, owner, d)
    {
      hide Owned, Lookup, Mapped, Cleared, ClearRange, Without, PagesFor;
      ghost var m1, owner1 := m, owner;
      SizeInPages(newsz);
      var _ := DeallocUvm(d, newsz, oldsz);
      ClearRangeEffect(m1, owner1, extra, all, d, PagesFor(oldsz), PagesFor(newsz));
      UndoMapped(m0, owner0, extra0, all, m1, owner1, m, d, PagesFor(oldsz), v, PagesFor(newsz), want);
      if mem.Some? {
        ghost var m2 := m;
        Kfree(mem.value);
        SameLookups(m2, m);
        assert extra == extra0;
      }
    }

    /** The allocation loop: all the pages, or none. */
    method AllocLoop(d: nat, oldsz: nat, newsz: nat) returns (ok: bool)
      requires Valid() && d in m.dirs && oldsz <= newsz < KERNBASE
      requires forall w: nat :: PagesFor(oldsz) <= w < PagesFor(newsz) ==> Lookup(m, d, w).None?
      modifies `m, `extra, `owner
      ensures Valid() && extra == old(extra)
      ensures ok <==> |old(m.free)| >= Need(old(m).dirs[d].Keys, PagesFor(oldsz), PagesFor(newsz))
      ensures ok ==> Mapped(old(m), old(owner), m, owner, d, PagesFor(oldsz), PagesFor(newsz), ZeroPage)
      ensures ok ==> |m.free| == |old(m.free)| - Need(old(m).dirs[d].Keys, PagesFor(oldsz), PagesFor(newsz))
      ensures !ok ==> OnlyTablesAdded(old(m), old(owner), m, owner, d)
    {
      hide Owned, Lookup, PagesFor, PgRoundUp, OnlyTablesAdded, Mapped, ZeroPage;
      SizeInPages(oldsz);
      SizeInPages(newsz);
      RoundUpOrder(oldsz, newsz);
      ghost var lo, hi, m0, owner0 := PagesFor(oldsz), PagesFor(newsz), m, owner;
      MappedNothing(m, owner, d, lo, ZeroPage);
      ghost var spare := |m.free| - Need(m.dirs[d].Keys, lo, hi);
      var a := PgRoundUp(oldsz);
      ghost var v := lo;
      while a < newsz
        invariant a == v * PGSIZE && lo <= v <= hi
        invariant Valid() && extra == old(extra) && d in m.dirs && m.data.Keys >= m0.data.Keys
        invariant Mapped(m0, owner0, m, owner, d, lo, v, ZeroPage)
        invariant |m.free| - Need(m.dirs[d].Keys, v, hi) == spare
      {
        hide Need;
        PageBelow(v, newsz);
        var mem, page := None, a / PGSIZE;
        assert page == v;
        ok, mem := MapNext(d, page, ZeroPage(page), m0, owner0, lo, hi, ZeroPage, spare);
        if !ok {
          GiveUp(d, oldsz, newsz, mem, m0, owner0, old(extra), v, ZeroPage);
          return;
        }
        a, v := a + PGSIZE, v + 1;
      }
      PageBelow(v, newsz);
      ok := true;
    }

    method AllocUvm(d: nat, oldsz: nat, newsz: nat) returns (r: nat)
      requires Valid() && d in m.dirs
      requires newsz < KERNBASE ==> forall w: nat :: PagesFor(oldsz) <= w < PagesFor(newsz) ==> Lookup(m, d, w).None?
      modifies `m, `extra, `owner
      ensures Valid() && extra == old(extra)
      ensures newsz >= KERNBASE ==> r == 0 && m == old(m) && owner == old(owner)
      ensures newsz < KERNBASE && newsz < oldsz ==> r == oldsz && m == old(m) && owner == old(owner)
      ensures oldsz <= newsz < KERNBASE ==>
        if |old(m.free)| >= Need(old(m).dirs[d].Keys, PagesFor(oldsz), PagesFor(newsz))
        then
          && r == newsz && Mapped(old(m), old(owner), m, owner, d, PagesFor(oldsz), PagesFor(newsz), ZeroPage)
          && |m.free| == |old(m.free)| - Need(old(m).dirs[d].Keys, PagesFor(oldsz), PagesFor(newsz))
        else r == 0 && OnlyTablesAdded(old(m), old(owner), m, owner, d)
    {
      if newsz >= KERNBASE {
        return 0;
      }
      if newsz < oldsz {
        return oldsz;
      }
      hide Owned, Mapped, OnlyTablesAdded, Need, PagesFor;
      var ok := AllocLoop(d, oldsz, newsz);
      r := if ok then newsz else 0;
    }

    /** One turn of mapping a kernel range. */
    method MapTurn(d: nat, r: Region, v: nat, ghost m0: Memory, ghost owner0: map<nat, Role>) returns (ok: bool)
      requires Valid() && v < r.n && USERPAGES <= r.v && r.v + r.n <= PAGES
      requires forall v: nat :: Inside(r, v) ==> Lookup(m0, d, v).None?
      requires RegionMapped(m0, m, d, r.(n := v)) && Grows(owner0, owner, d)
      modifies `m, `extra, `owner
      ensures Valid() && extra == old(extra) && Grows(owner0, owner, d)
      ensures ok ==> RegionMapped(m0, m, d, r.(n := v + 1))
      ensures !ok ==> m == old(m) && !Enough(m0, d, r)
    {
      hide Owned, Lookup, RegionTables, RegionMapped, WithTable, Grows, Inside;
      ghost var m1, owner1 := m, owner;
      StillUnmapped(m0, m, d, r, v);
      ok := MapPage(d, r.v + v, Pte(r.frame + v, r.flags));
      GrowsTrans(owner0, owner1, owner, d);
      if ok {
        RegionMappedStep(m0, m1, m, d, r, v);
      }
    }

    /** Map a range of kernel pages, page after page. */
    method MapRegion(d: nat, r: Region) returns (ok: bool)
      requires Valid() && d in m.dirs
      requires USERPAGES <= r.v && 1 <= r.n && r.v + r.n <= PAGES
      requires forall v: nat :: Inside(r, v) ==> Lookup(m, d, v).None?
      modifies `m, `extra, `owner
      ensures Valid() && extra == old(extra)
      ensures Grows(old(owner), owner, d)
      ensures ok <==> Enough(old(m), d, r)
      ensures ok ==> RegionMapped(old(m), m, d, r)
      ensures OthersSame(old(m), m, d)
    {
      hide Owned, Lookup, RegionTables, RegionMapped, Grows, Inside, OthersSame, Enough;
      ghost var m0, owner0 := m, owner;
      RegionMappedNothing(m0, owner0, d, r);
      var v := 0;
      while v < r.n
        invariant v <= r.n && Valid() && extra == old(extra)
        invariant RegionMapped(m0, m, d, r.(n := v)) && Grows(owner0, owner, d)
      {
        ok := MapTurn(d, r, v, m0, owner0);
        if !ok {
          StillUnmapped(m0, m, d, r, v);
          return;
        }
        v := v + 1;
      }
      assert r.(n := v) == r;
      TablesMapped(m0, m, d, r);
      ok := true;
    }

    /** A new directory that maps nothing. */
    method NewDirectory() returns (r: Option<nat>)
      requires Valid()
      modifies `m, `extra, `owner
      ensures Valid() && extra == old(extra)
      ensures r.None? <==> old(m.free) == []
      ensures r.None? ==> m == old(m) && owner == old(owner)
      ensures r.Some? ==> KernelReady(old(m), old(owner), m, owner, r.value, [])
    {
      r := Kalloc();
      if r.Some? {
        NewDir(m, owner, extra, all, r.value);
        m, owner, extra := m.(dirs := m.dirs[r.value := map[]]), owner[r.value := Dir(r.value)], extra - {r.value};
        assert extra == old(extra);
      }
    }

    /** Set up the kernel part of a new directory; without memory for all of it, give it up. */
    method SetupKvm(kmap: seq<Region>) returns (r: Option<nat>)
      requires Valid() && KmapOK(kmap)
      modifies `m, `extra, `owner
      ensures Valid() && extra == old(extra)
      ensures r.Some? <==> |old(m.free)| >= 1 + |KernelTables(kmap)|
      ensures r.Some? ==> KernelReady(old(m), old(owner), m, owner, r.value, kmap)
      ensures r.None? ==> Untouched(old(m), old(owner), m, owner)
    {
      hide Owned, Lookup, KernelReady, KernelTables, RegionMapped, Enough, OthersSame, Grows;
      ghost var m0, owner0 := m, owner;
      r := NewDirectory();
      if r.None? {
        SameLookups(m, m);
        return;
      }
      var d := r.value;
      var k := 0;
      while k < |kmap|
        invariant k <= |kmap| && Valid() && extra == old(extra)
        invariant KernelReady(m0, owner0, m, owner, d, kmap[..k])
      {
        ghost var m1, owner1 := m, owner;
        NextRegion(m0, owner0, m, owner, d, kmap, k);
        var ok := MapRegion(d, kmap[k]);
        if !ok {
          ghost var m2, owner2 := m, owner;
          StillNew(m0, owner0, m1, owner1, m, owner, d, kmap[..k]);
          FreeVm(d);
          NothingLeft(m0, owner0, extra, all, m2, owner2, m, d);
          return None;
        }
        KernelReadyStep(m0, owner0, m1, owner1, m, owner, d, kmap, k);
        k := k + 1;
      }
      assert kmap[..k] == kmap;
      ReadySize(m0, owner0, m, owner, d, kmap);
      r := Some(d);
    }

    /** The copying loop, into directory c. */
    method CopyLoop(src: nat, c: nat, sz: nat, ghost m0: Memory, ghost owner0: map<nat, Role>)
      returns (ok: bool, mem: Option<nat>)
      requires Valid() && sz <= KERNBASE && ToCopy(m0, src, PagesFor(sz))
      requires Owned(m0, owner0, extra, all) && ReadyFor(m0, owner0, m, owner, c)
      modifies `m, `extra, `owner
      ensures Valid() && OnlyNew(m0, owner0, m, owner, c)
      ensures ok <==> |old(m.free)| >= Frames(PagesFor(sz))
      ensures ok ==> extra == old(extra) && Mapped(old(m), old(owner), m, owner, c, 0, PagesFor(sz), Copies(m0, src))
      ensures !ok ==> extra == old(extra) + (if mem.Some? then {mem.value} else {})
      ensures !ok ==> (mem.Some? <==> Leaks(|old(m.free)|))
      ensures !ok && mem.Some? ==> mem.value !in old(extra) && mem.value !in owner0
    {
      hide Owned, Lookup, Mapped, Need, PagesFor, OnlyNew, ReadyFor, ToCopy, CopyImage, Copies, FirstTables, Frames;
      hide Leaks;
      ghost var m1, owner1, n, want := m, owner, PagesFor(sz), Copies(m0, src);
      SizeInPages(sz);
      MappedNothing(m1, owner1, c, 0, want);
      StartsReady(m0, owner0, m1, owner1, c, n);
      ghost var spare := |m.free| - Need(m.dirs[c].Keys, 0, n);
      var i := 0;
      ghost var v := 0;
      mem := None;
      while i < sz
        invariant i == v * PGSIZE && v <= n && Valid() && extra == old(extra)
        invariant c in m.dirs && m.data.Keys >= m1.data.Keys
        invariant Mapped(m1, owner1, m, owner, c, 0, v, want)
        invariant |m.free| - Need(m.dirs[c].Keys, v, n) == spare
        invariant FirstTables(m.dirs[c].Keys, v)
      {
        PageBelow(v, sz);
        SourcePage(m0, owner0, extra, all, m1, owner1, m, owner, c, src, v, n);
        ghost var free, keys := |m.free|, m.dirs[c].Keys;
        var page := i / PGSIZE;
        assert page == v;
        var e := Lookup(m, src, page).value;
        ok, mem := MapNext(c, page, Image(m.data[e.frame], e.flags), m1, owner1, 0, n, want, spare);
        if !ok {
          StillCopying(m0, owner0, m1, owner1, m, owner, c, 0, v, want);
          Stuck(keys, |m1.free|, v, n, free);
          return;
        }
        FirstTablesStep(keys, v);
        i, v := i + PGSIZE, v + 1;
      }
      PageBelow(v, sz);
      StillCopying(m0, owner0, m1, owner1, m, owner, c, 0, v, want);
      NeedFresh(m.dirs[c].Keys, n, n);
      ok := true;
    }

    /** Copy the first pages of a directory into a new one. A page whose table cannot be
        allocated is left behind: `leaked` is in no role and on no list. */
    method CopyUvm(src: nat, sz: nat, kmap: seq<Region>) returns (r: Option<nat>, ghost leaked: set<nat>)
      requires Valid() && sz <= KERNBASE && KmapOK(kmap) && ToCopy(m, src, PagesFor(sz))
      modifies `m, `extra, `owner
      ensures Valid() && extra == old(extra) + leaked
      ensures r.Some? <==> Spare(|old(m.free)|, kmap) >= Frames(PagesFor(sz))
      ensures r.Some? ==> Copied(old(m), old(owner), m, owner, src, r.value, PagesFor(sz), kmap)
      ensures r.None? ==> Untouched(old(m), old(owner), m, owner)
      ensures leaked != {} <==>
        0 <= Spare(|old(m.free)|, kmap) < Frames(PagesFor(sz)) && Leaks(Spare(|old(m.free)|, kmap))
      ensures |leaked| <= 1 && forall f :: f in leaked ==> f in old(m.free)
    {
      hide Owned, Lookup, KernelReady, KernelTables, Mapped, PagesFor, Copied, OnlyNew, ReadyFor, ToCopy, Copies;
      hide KmapOK, Frames, Untouched, Leaks;
      ghost var m0, owner0, n := m, owner, PagesFor(sz);
      leaked := {};
      r := SetupKvm(kmap);
      if r.None? {
        return;
      }
      ghost var m1, owner1 := m, owner;
      ReadyToCopy(m0, owner0, m1, owner1, r.value, kmap);
      var ok, mem := CopyLoop(src, r.value, sz, m0, owner0);
      ghost var m2, owner2 := m, owner;
      if ok {
        AllCopied(m0, owner0, m1, owner1, m, owner, src, r.value, n, kmap);
        return;
      }
      if mem.Some? {
        leaked := {mem.value};
        WasFree(m0, owner0, old(extra), m, owner, extra, all, mem.value);
      }
      NewIsThere(m0, owner0, m, owner, r.value);
      FreeVm(r.value);
      NothingLeft(m0, owner0, old(extra), all, m2, owner2, m, r.value);
      r := None;
    }
  }

  /** The frames of the witness: two kernel parts, one page with its table, and one to spare. */
  lemma {:induction false} OneToSpare(kmap: seq<Region>, m0: Memory, owner0: map<nat, Role>, m: Memory,
                                      owner: map<nat, Role>, d: nat)
    requires KmapOK(kmap) && KernelReady(m0, owner0, m, owner, d, kmap)
    requires |m0.free| == 2 * |KernelTables(kmap)| + 5
    ensures d in m.dirs && Lookup(m, d, 0).None? && PagesFor(0) == 0 && PagesFor(PGSIZE) == 1 && Frames(1) == 2
    ensures Need(m.dirs[d].Keys, 0, 1) == 2 && |m.free| == |KernelTables(kmap)| + 4
    ensures Spare(|KernelTables(kmap)| + 2, kmap) == 1 && Leaks(1)
  {
    ReadyToCopy(m0, owner0, m, owner, d, kmap);
    StartsReady(m0, owner0, m, owner, d, 1);
    hide KernelTables, Need, Lookup, KmapOK;
    KernelStartsHigh(kmap);
  }

  lemma {:induction false} KernelStartsHigh(kmap: seq<Region>)
    requires KmapOK(kmap)
    ensures KernelEntry(kmap, 0).None?
  {
    if kmap != [] {
      KernelStartsHigh(kmap[..|kmap| - 1]);
    }
  }

  lemma {:induction false} PageToCopy(m0: Memory, owner0: map<nat, Role>, m: Memory, owner: map<nat, Role>, d: nat)
    requires Mapped(m0, owner0, m, owner, d, 0, 1, ZeroPage) && d in m0.dirs
    ensures ToCopy(m, d, 1)
  {
    hide Lookup;
    assert Holds(m, owner0, d, 0, ZeroPage(0));
  }

  /** Whatever the kernel map is, there is a machine on which copying a one-page process leaks a
      frame: two kernel parts fit, the page and its table, the copied page, and no further table. */
  method CopyLeaksOnePage(kmap: seq<Region>) returns (k: Kernel, ghost leaked: set<nat>)
    requires KmapOK(kmap)
    ensures fresh(k) && k.Valid() && k.extra == leaked && |leaked| == 1
  {
    hide KernelTables, Need, Lookup, KmapOK, KernelReady, Mapped, Frames, Owned, Spare, Leaks, PagesFor, Untouched;
    hide Copied;
    var t := |KernelTables(kmap)|;
    var n := 2 * t + 5;
    var frames := seq(n, (i: nat) => i + 1);
    k := new Kernel(frames, map f | f in frames :: []);
    ghost var m0, owner0 := k.m, k.owner;
    var d := k.SetupKvm(kmap);
    OneToSpare(kmap, m0, owner0, k.m, k.owner, d.value);
    ghost var m1, owner1 := k.m, k.owner;
    var r := k.AllocUvm(d.value, 0, PGSIZE);
    PageToCopy(m1, owner1, k.m, k.owner, d.value);
    var c;
    c, leaked := k.CopyUvm(d.value, PGSIZE, kmap);
  }
}
