/**
  Page directories, page tables and page ownership of Lab/code/vm.c and kalloc.c, on values.
  Memory is made of numbered frames. A page directory and its page tables are frames of
  entries; below USERTABS they map user pages, above it the kernel.
 */
module VmLayout {
  import opened Options

  const ENTRIES := 1024       // NPDENTRIES, NPTENTRIES
  const USERTABS := 512       // PDX(KERNBASE)
  const PAGES := 0x10_0000    // pages of a 32-bit address space
  const USERPAGES := 0x8_0000 // pages below KERNBASE

  type Page = seq<int>
  datatype Pte = Pte(frame: nat, flags: nat)

  /** A frame of entries, as a map from the index of each entry whose PTE_P bit is set. */
  type Table = map<nat, Pte>

  /** `free` is the allocator's list, `dirs` and `tabs` the page directories and page tables by
      frame, `data` the contents of pages. */
  datatype Memory = Memory(free: seq<nat>, dirs: map<nat, Table>, tabs: map<nat, Table>, data: map<nat, Page>)

  /** What a frame is used for. */
  datatype Role =
    | Dir(dir: nat)
    | Tab(dir: nat, i: nat)
    | User(dir: nat, i: nat, j: nat)

  /** The frame in a role, if the role is taken. */
  function FrameOf(m: Memory, r: Role): Option<nat> {
    if r.dir !in m.dirs then None
    else match r
      case Dir(d) => Some(d)
      case Tab(d, i) => if i in m.dirs[d] then Some(m.dirs[d][i].frame) else None
      case User(d, i, j) =>
        if i < USERTABS && i in m.dirs[d] && m.dirs[d][i].frame in m.tabs && j in m.tabs[m.dirs[d][i].frame]
        then Some(m.tabs[m.dirs[d][i].frame][j].frame) else None
  }

  /** Entry for virtual page v of directory d: the page table as a map. */
  function Lookup(m: Memory, d: nat, v: nat): Option<Pte> {
    var i, j := v / ENTRIES, v % ENTRIES;
    if d in m.dirs && i in m.dirs[d] && m.dirs[d][i].frame in m.tabs && j in m.tabs[m.dirs[d][i].frame]
    then Some(m.tabs[m.dirs[d][i].frame][j]) else None
  }

  ghost predicate Distinct(s: seq<nat>) {
    forall i, j :: 0 <= i < j < |s| ==> s[i] != s[j]
  }

  /** Every frame of `all` is on the free list, in exactly one role, or in `extra` (taken from the
      list and not yet, or no longer, in a role). `owner` is the inverse of the roles. */
  ghost predicate Owned(m: Memory, owner: map<nat, Role>, extra: set<nat>, all: set<nat>) {
    && (forall r :: FrameOf(m, r).Some? ==> FrameOf(m, r).value in owner && owner[FrameOf(m, r).value] == r)
    && (forall f :: f in owner ==> FrameOf(m, owner[f]) == Some(f))
    && (forall f :: f in owner && owner[f].Tab? ==> f in m.tabs && owner[f].i < ENTRIES)
    && (forall f :: f in owner && owner[f].User? ==> owner[f].j < ENTRIES)
    && Distinct(m.free)
    && (forall f :: f in m.free ==> f !in owner && f !in extra)
    && (forall f :: f in extra ==> f !in owner)
    && (forall f :: f in all <==> f in m.free || f in owner || f in extra)
    && (forall f :: f in all ==> f in m.data)
    && 0 !in all
  }

  /** Ownership without the inverse map: no frame has two roles, none is both free and in use. */
  lemma {:induction false} OwnedMeans(m: Memory, owner: map<nat, Role>, all: set<nat>)
    requires Owned(m, owner, {}, all)
    ensures forall r, s :: FrameOf(m, r).Some? && FrameOf(m, r) == FrameOf(m, s) ==> r == s
    ensures forall r :: FrameOf(m, r).Some? ==> FrameOf(m, r).value !in m.free && FrameOf(m, r).value in all
    ensures forall f :: f in all && f !in m.free ==> exists r :: FrameOf(m, r) == Some(f)
  {
    forall f | f in all && f !in m.free
      ensures exists r :: FrameOf(m, r) == Some(f)
    {
      assert FrameOf(m, owner[f]) == Some(f);
    }
  }

  /** Translations of every directory are the same. */
  ghost predicate SameMaps(m: Memory, m': Memory) {
    && m'.dirs.Keys == m.dirs.Keys
    && forall d, v :: Lookup(m', d, v) == Lookup(m, d, v)
  }

  // ---- the allocator ----

  lemma {:induction false} TakeFrame(m: Memory, owner: map<nat, Role>, extra: set<nat>, all: set<nat>)
    requires Owned(m, owner, extra, all) && m.free != []
    ensures Owned(m.(free := m.free[1..]), owner, extra + {m.free[0]}, all)
    ensures m.free[0] !in owner && m.free[0] !in extra
  {
    var m' := m.(free := m.free[1..]);
    assert m.free[0] in m.free;
    assert forall r :: FrameOf(m', r) == FrameOf(m, r);
    DistinctTail(m.free);
    hide FrameOf, Distinct;
  }

  lemma {:induction false} DistinctTail(s: seq<nat>)
    requires Distinct(s) && s != []
    ensures Distinct(s[1..]) && s[0] !in s[1..]
    ensures forall f :: f in s <==> f == s[0] || f in s[1..]
  {
    assert s == [s[0]] + s[1..];
  }

  lemma {:induction false} GiveFrame(m: Memory, owner: map<nat, Role>, extra: set<nat>, all: set<nat>, f: nat, p: Page)
    requires Owned(m, owner, extra, all) && f in extra
    ensures Owned(m.(free := [f] + m.free, data := m.data[f := p]), owner, extra - {f}, all)
  {
    var m' := m.(free := [f] + m.free, data := m.data[f := p]);
    assert forall r :: FrameOf(m', r) == FrameOf(m, r);
    hide FrameOf;
  }

  // ---- placing and removing ----

  /** If only role `t` changed, from empty to an extra frame, ownership moves there. */
  lemma {:induction false} PlaceOwned(m: Memory, m': Memory, owner: map<nat, Role>, extra: set<nat>, all: set<nat>,
                                      t: Role, f: nat)
    requires Owned(m, owner, extra, all) && f in extra && FrameOf(m, t).None?
    requires m'.free == m.free && m'.data == m.data && m'.tabs.Keys >= m.tabs.Keys
    requires forall r :: FrameOf(m', r) == if r == t then Some(f) else FrameOf(m, r)
    requires t.Tab? ==> f in m'.tabs && t.i < ENTRIES
    requires t.User? ==> t.j < ENTRIES
    ensures Owned(m', owner[f := t], extra - {f}, all)
  {
    hide FrameOf;
  }

  /** If only role `t` changed, to empty, its frame becomes extra. */
  lemma {:induction false} RemoveOwned(m: Memory, m': Memory, owner: map<nat, Role>, extra: set<nat>, all: set<nat>,
                                       t: Role, f: nat)
    requires Owned(m, owner, extra, all) && FrameOf(m, t) == Some(f)
    requires m'.free == m.free && m'.data == m.data && m'.tabs.Keys >= m.tabs.Keys
    requires forall r :: FrameOf(m', r) == if r == t then None else FrameOf(m, r)
    ensures f in owner && f !in extra && f != 0 && Owned(m', owner - {f}, extra + {f}, all)
  {
    hide FrameOf;
    var owner' := owner - {f};
    forall g | g in owner'
      ensures FrameOf(m', owner'[g]) == Some(g)
    {
      assert FrameOf(m, owner[g]) == Some(g);
    }
  }

  /** The page table for page v of directory d is there. */
  predicate HasTable(m: Memory, d: nat, v: nat) {
    d in m.dirs && v / ENTRIES in m.dirs[d] && m.dirs[d][v / ENTRIES].frame in m.tabs
  }

  function AddTable(m: Memory, d: nat, i: nat, f: nat): Memory
    requires d in m.dirs
  {
    var dir: Table := m.dirs[d][i := Pte(f, 7)];
    m.(dirs := m.dirs[d := dir], tabs := m.tabs[f := map[]])
  }

  function SetEntry(m: Memory, d: nat, v: nat, e: Option<Pte>): Memory
    requires HasTable(m, d, v)
  {
    var t := m.dirs[d][v / ENTRIES].frame;
    var tab: Table := if e.Some? then m.tabs[t][v % ENTRIES := e.value] else m.tabs[t] - {v % ENTRIES};
    m.(tabs := m.tabs[t := tab])
  }

  function UserRole(d: nat, v: nat): Role {
    User(d, v / ENTRIES, v % ENTRIES)
  }

  /** Two different tables are in two different frames. */
  lemma {:induction false} TableDistinct(m: Memory, owner: map<nat, Role>, extra: set<nat>, all: set<nat>, d: nat,
                                         i: nat)
    requires Owned(m, owner, extra, all)
    requires d in m.dirs && i in m.dirs[d]
    ensures m.dirs[d][i].frame in owner && owner[m.dirs[d][i].frame] == Tab(d, i)
    ensures m.dirs[d][i].frame in m.tabs && i < ENTRIES
  {
    assert FrameOf(m, Tab(d, i)) == Some(m.dirs[d][i].frame);
  }

  lemma {:induction false} AddTableRoles(m: Memory, d: nat, i: nat, f: nat)
    requires d in m.dirs && i !in m.dirs[d]
    requires forall x, k :: x in m.dirs && k in m.dirs[x] ==> m.dirs[x][k].frame != f
    ensures forall r :: FrameOf(AddTable(m, d, i, f), r) == if r == Tab(d, i) then Some(f) else FrameOf(m, r)
    ensures SameMaps(m, AddTable(m, d, i, f))
  {
    var m' := AddTable(m, d, i, f);
    assert m'.dirs.Keys == m.dirs.Keys && m'.tabs[f] == map[];
    forall r ensures FrameOf(m', r) == if r == Tab(d, i) then Some(f) else FrameOf(m, r)
    {
      AddTableRole(m, d, i, f, r);
    }
    hide AddTable, FrameOf;
    forall x, v ensures Lookup(m', x, v) == Lookup(m, x, v)
    {
      AddTableLookup(m, d, i, f, x, v);
    }
  }

  lemma {:induction false} AddTableRole(m: Memory, d: nat, i: nat, f: nat, r: Role)
    requires d in m.dirs && i !in m.dirs[d]
    requires forall x, k :: x in m.dirs && k in m.dirs[x] ==> m.dirs[x][k].frame != f
    ensures FrameOf(AddTable(m, d, i, f), r) == if r == Tab(d, i) then Some(f) else FrameOf(m, r)
  {
  }

  lemma {:induction false} AddTableLookup(m: Memory, d: nat, i: nat, f: nat, x: nat, v: nat)
    requires d in m.dirs && i !in m.dirs[d]
    requires forall x, k :: x in m.dirs && k in m.dirs[x] ==> m.dirs[x][k].frame != f
    ensures Lookup(AddTable(m, d, i, f), x, v) == Lookup(m, x, v)
  {
  }

  /** A new page table is empty, so it changes no translation; its frame gets the role. */
  lemma {:induction false} AddTableEffect(m: Memory, owner: map<nat, Role>, extra: set<nat>, all: set<nat>, d: nat,
                                          i: nat, f: nat)
    requires Owned(m, owner, extra, all) && f in extra
    requires d in m.dirs && i < ENTRIES && i !in m.dirs[d]
    ensures Owned(AddTable(m, d, i, f), owner[f := Tab(d, i)], extra - {f}, all)
    ensures SameMaps(m, AddTable(m, d, i, f))
  {
    assert f !in owner;
    forall x, k | x in m.dirs && k in m.dirs[x]
      ensures m.dirs[x][k].frame != f
    {
      TableDistinct(m, owner, extra, all, x, k);
    }
    AddTableRoles(m, d, i, f);
    assert FrameOf(m, Tab(d, i)).None?;
    hide FrameOf, Owned, SameMaps, Lookup;
    PlaceOwned(m, AddTable(m, d, i, f), owner, extra, all, Tab(d, i), f);
  }

  function Frame(e: Option<Pte>): Option<nat> {
    if e.Some? then Some(e.value.frame) else None
  }

  /** A frame becomes an empty directory. */
  lemma {:induction false} NewDir(m: Memory, owner: map<nat, Role>, extra: set<nat>, all: set<nat>, f: nat)
    requires Owned(m, owner, extra, all) && f in extra
    ensures Owned(m.(dirs := m.dirs[f := map[]]), owner[f := Dir(f)], extra - {f}, all)
    ensures f !in m.dirs && forall x: nat, v: nat :: Lookup(m.(dirs := m.dirs[f := map[]]), x, v) == Lookup(m, x, v)
  {
    var m' := m.(dirs := m.dirs[f := map[]]);
    assert FrameOf(m, Dir(f)).None? by {
      assert f !in owner;
    }
    assert forall r :: FrameOf(m', r) == if r == Dir(f) then Some(f) else FrameOf(m, r);
    hide FrameOf, Owned;
    PlaceOwned(m, m', owner, extra, all, Dir(f), f);
  }

  /** One entry is set: one translation changes, and for a user page one role. */
  lemma {:induction false} SetEntryEffect(m: Memory, owner: map<nat, Role>, extra: set<nat>, all: set<nat>, d: nat,
                                          v: nat, e: Option<Pte>)
    requires Owned(m, owner, extra, all) && HasTable(m, d, v)
    ensures forall x, w :: Lookup(SetEntry(m, d, v, e), x, w) == if x == d && w == v then e else Lookup(m, x, w)
    ensures forall r ::
      FrameOf(SetEntry(m, d, v, e), r) == if r == UserRole(d, v) && v < USERPAGES then Frame(e) else FrameOf(m, r)
  {
    var m' := SetEntry(m, d, v, e);
    TableDistinct(m, owner, extra, all, d, v / ENTRIES);
    forall x, k | x in m.dirs && k in m.dirs[x] && (x != d || k != v / ENTRIES)
      ensures m.dirs[x][k].frame != m.dirs[d][v / ENTRIES].frame
    {
      TableDistinct(m, owner, extra, all, x, k);
    }
    forall x, w ensures Lookup(m', x, w) == if x == d && w == v then e else Lookup(m, x, w)
    {
    }
  }

  /** A user page takes a frame into its role. */
  lemma {:induction false} PlaceUser(m: Memory, owner: map<nat, Role>, extra: set<nat>, all: set<nat>, d: nat, v: nat,
                                     e: Pte)
    requires Owned(m, owner, extra, all) && HasTable(m, d, v)
    requires v < USERPAGES && Lookup(m, d, v).None? && e.frame in extra
    ensures Owned(SetEntry(m, d, v, Some(e)), owner[e.frame := UserRole(d, v)], extra - {e.frame}, all)
  {
    SetEntryEffect(m, owner, extra, all, d, v, Some(e));
    assert FrameOf(m, UserRole(d, v)).None?;
    hide FrameOf, Owned, Lookup;
    PlaceOwned(m, SetEntry(m, d, v, Some(e)), owner, extra, all, UserRole(d, v), e.frame);
  }

  /** A kernel page maps memory that no role owns. */
  lemma {:induction false} PlaceKernel(m: Memory, owner: map<nat, Role>, extra: set<nat>, all: set<nat>, d: nat,
                                       v: nat, e: Pte)
    requires Owned(m, owner, extra, all) && HasTable(m, d, v) && v >= USERPAGES
    ensures Owned(SetEntry(m, d, v, Some(e)), owner, extra, all)
  {
    SetEntryEffect(m, owner, extra, all, d, v, Some(e));
    hide FrameOf, Lookup;
  }

  // ---- deallocation, page by page ----

  /** A page filled by memset. */
  function Filled(b: int): Page {
    seq(4096, _ => b)
  }

  function Freed(m: Memory, f: nat): Memory {
    m.(free := [f] + m.free, data := m.data[f := Filled(1)])
  }

  /** Free page v of directory d if it is mapped. */
  function ClearPage(m: Memory, d: nat, v: nat): Memory {
    var e := Lookup(m, d, v);
    if e.None? then m else SetEntry(Freed(m, e.value.frame), d, v, None)
  }

  /** Visit every page from lo up to hi, one after the other. */
  function ClearRange(m: Memory, d: nat, lo: nat, hi: nat): Memory
    decreases hi
  {
    if hi <= lo then m else ClearPage(ClearRange(m, d, lo, hi - 1), d, hi - 1)
  }

  predicate InRange(r: Role, d: nat, lo: nat, hi: nat) {
    r.User? && r.dir == d && lo <= r.i * ENTRIES + r.j < hi
  }

  /** The roles left when the user pages lo up to hi of directory d are gone. */
  function Without(owner: map<nat, Role>, d: nat, lo: nat, hi: nat): map<nat, Role> {
    map f | f in owner && !InRange(owner[f], d, lo, hi) :: owner[f]
  }

  /** Only pages lo up to hi of d lose their translation, and only roles' own data is kept. */
  ghost predicate Cleared(m: Memory, m': Memory, owner: map<nat, Role>, d: nat, lo: nat, hi: nat) {
    && m'.dirs == m.dirs && m'.tabs.Keys == m.tabs.Keys
    && (forall x: nat, w: nat :: Lookup(m', x, w) == if x == d && lo <= w < hi then None else Lookup(m, x, w))
    && (forall f :: f in Without(owner, d, lo, hi) && f in m.data ==> f in m'.data && m'.data[f] == m.data[f])
  }

  lemma {:induction false} ClearPageEffect(m: Memory, owner: map<nat, Role>, extra: set<nat>, all: set<nat>, d: nat,
                                           v: nat)
    requires Owned(m, owner, extra, all) && v < USERPAGES
    ensures Owned(ClearPage(m, d, v), Without(owner, d, v, v + 1), extra, all)
    ensures Cleared(m, ClearPage(m, d, v), owner, d, v, v + 1)
  {
    var e := Lookup(m, d, v);
    if e.None? {
      NoneInRange(m, owner, extra, all, d, v);
    } else {
      ClearMapped(m, owner, extra, all, d, v, e.value.frame);
    }
  }

  lemma {:induction false} ClearMapped(m: Memory, owner: map<nat, Role>, extra: set<nat>, all: set<nat>, d: nat,
                                       v: nat, f: nat)
    requires Owned(m, owner, extra, all) && v < USERPAGES
    requires Lookup(m, d, v).Some? && Lookup(m, d, v).value.frame == f
    ensures Owned(ClearPage(m, d, v), Without(owner, d, v, v + 1), extra, all)
    ensures Cleared(m, ClearPage(m, d, v), owner, d, v, v + 1)
  {
    var m1, m2 := SetEntry(m, d, v, None), ClearPage(m, d, v);
    SetEntryEffect(m, owner, extra, all, d, v, None);
    assert FrameOf(m, UserRole(d, v)) == Some(f);
    OnlyOneInRange(m, owner, extra, all, d, v, f);
    assert m2 == Freed(m1, f);
    assert m1.dirs == m.dirs && m1.tabs.Keys == m.tabs.Keys && m1.data == m.data && m1.free == m.free;
    SameLookups(m1, m2);
    hide ClearPage, SetEntry, FrameOf, Owned, Lookup, Without;
    assert Owned(m2, owner - {f}, extra, all) by {
      RemoveOwned(m, m1, owner, extra, all, UserRole(d, v), f);
      GiveFrame(m1, owner - {f}, extra + {f}, all, f, Filled(1));
      assert extra + {f} - {f} == extra;
    }
  }

  lemma {:induction false} SameLookups(m: Memory, m': Memory)
    requires m'.dirs == m.dirs && m'.tabs == m.tabs
    ensures SameMaps(m, m')
  {
  }

  lemma {:induction false} NoneInRange(m: Memory, owner: map<nat, Role>, extra: set<nat>, all: set<nat>, d: nat, v: nat)
    requires Owned(m, owner, extra, all) && Lookup(m, d, v).None?
    ensures Without(owner, d, v, v + 1) == owner
  {
    forall f | f in owner ensures !InRange(owner[f], d, v, v + 1)
    {
      assert FrameOf(m, owner[f]) == Some(f);
    }
  }

  lemma {:induction false} OnlyOneInRange(m: Memory, owner: map<nat, Role>, extra: set<nat>, all: set<nat>, d: nat,
                                          v: nat, f: nat)
    requires Owned(m, owner, extra, all) && FrameOf(m, UserRole(d, v)) == Some(f)
    ensures Without(owner, d, v, v + 1) == owner - {f}
  {
    forall g | g in owner ensures InRange(owner[g], d, v, v + 1) <==> g == f
    {
      assert FrameOf(m, owner[g]) == Some(g);
    }
  }

  /** Visiting every page of a user range clears exactly that range and frees exactly its frames. */
  lemma {:induction false} ClearRangeEffect(m: Memory, owner: map<nat, Role>, extra: set<nat>, all: set<nat>, d: nat,
                                            lo: nat, hi: nat)
    requires Owned(m, owner, extra, all) && hi <= USERPAGES
    ensures Owned(ClearRange(m, d, lo, hi), Without(owner, d, lo, hi), extra, all)
    ensures Cleared(m, ClearRange(m, d, lo, hi), owner, d, lo, hi)
    decreases hi
  {
    hide Owned, ClearPage, Lookup, Cleared, Without;
    if hi <= lo {
      ClearedNothing(m, owner, d, lo, hi);
    } else {
      var m1, owner1 := ClearRange(m, d, lo, hi - 1), Without(owner, d, lo, hi - 1);
      ClearRangeEffect(m, owner, extra, all, d, lo, hi - 1);
      ClearPageEffect(m1, owner1, extra, all, d, hi - 1);
      WithoutThen(owner, d, lo, hi);
      ClearedThen(m, m1, ClearPage(m1, d, hi - 1), owner, d, lo, hi);
    }
  }

  lemma {:induction false} ClearedNothing(m: Memory, owner: map<nat, Role>, d: nat, lo: nat, hi: nat)
    requires hi <= lo
    ensures Without(owner, d, lo, hi) == owner && Cleared(m, m, owner, d, lo, hi)
  {
  }

  lemma {:induction false} WithoutThen(owner: map<nat, Role>, d: nat, lo: nat, hi: nat)
    requires lo < hi
    ensures Without(Without(owner, d, lo, hi - 1), d, hi - 1, hi) == Without(owner, d, lo, hi)
  {
  }

  lemma {:induction false} ClearedThen(m: Memory, m1: Memory, m2: Memory, owner: map<nat, Role>, d: nat, lo: nat,
                                       hi: nat)
    requires lo < hi
    requires Cleared(m, m1, owner, d, lo, hi - 1)
    requires Cleared(m1, m2, Without(owner, d, lo, hi - 1), d, hi - 1, hi)
    ensures Cleared(m, m2, owner, d, lo, hi)
  {
    hide Lookup;
  }

  /** Pages without a translation can be passed over. */
  lemma {:induction false} NothingToClear(m: Memory, d: nat, lo: nat, a: nat, b: nat)
    requires lo <= a <= b
    requires forall v :: a <= v < b ==> Lookup(ClearRange(m, d, lo, a), d, v).None?
    ensures ClearRange(m, d, lo, b) == ClearRange(m, d, lo, a)
    decreases b
  {
    if a < b {
      NothingToClear(m, d, lo, a, b - 1);
    }
  }

  // ---- giving up a directory ----

  /** The frames of the page tables at index i and above. */
  function TableFrames(dir: Table, i: nat): set<nat> {
    set k | k in dir && k >= i :: dir[k].frame
  }

  function OthersOnly(owner: map<nat, Role>, d: nat): map<nat, Role> {
    map f | f in owner && owner[f].dir != d :: owner[f]
  }

  /** A directory without user pages owns its own frame and its page tables' frames. */
  lemma {:induction false} Detach(m: Memory, owner: map<nat, Role>, extra: set<nat>, all: set<nat>, d: nat)
    requires Owned(m, owner, extra, all) && d in m.dirs
    requires forall v: nat :: v < USERPAGES ==> Lookup(m, d, v).None?
    ensures Owned(m.(dirs := m.dirs - {d}), OthersOnly(owner, d), extra + ({d} + TableFrames(m.dirs[d], 0)), all)
    ensures d !in extra && d !in TableFrames(m.dirs[d], 0) && extra !! TableFrames(m.dirs[d], 0)
  {
    var m', dir := m.(dirs := m.dirs - {d}), m.dirs[d];
    assert FrameOf(m, Dir(d)) == Some(d);
    forall k | k in dir
      ensures dir[k].frame in owner && owner[dir[k].frame] == Tab(d, k)
    {
      TableDistinct(m, owner, extra, all, d, k);
    }
    forall f | f in owner && owner[f].dir == d
      ensures f in {d} + TableFrames(dir, 0)
    {
      RoleOfDir(m, owner, extra, all, d, f);
    }
    DropRoles(m, m', owner, extra, all, d, {d} + TableFrames(dir, 0));
  }

  lemma {:induction false} DropRoles(m: Memory, m': Memory, owner: map<nat, Role>, extra: set<nat>, all: set<nat>,
                                     d: nat, s: set<nat>)
    requires Owned(m, owner, extra, all) && m' == m.(dirs := m.dirs - {d})
    requires forall f :: f in s <==> f in owner && owner[f].dir == d
    ensures Owned(m', OthersOnly(owner, d), extra + s, all)
  {
    hide FrameOf, Distinct;
    DropFrames(m, d);
    var owner' := OthersOnly(owner, d);
    forall f | f in owner'
      ensures FrameOf(m', owner'[f]) == Some(f)
    {
      assert FrameOf(m, owner[f]) == Some(f);
    }
  }

  lemma {:induction false} DropFrames(m: Memory, d: nat)
    ensures forall r :: FrameOf(m.(dirs := m.dirs - {d}), r) == if r.dir == d then None else FrameOf(m, r)
  {
  }

  lemma {:induction false} RoleOfDir(m: Memory, owner: map<nat, Role>, extra: set<nat>, all: set<nat>, d: nat, f: nat)
    requires Owned(m, owner, extra, all) && d in m.dirs && f in owner && owner[f].dir == d
    requires forall v: nat :: v < USERPAGES ==> Lookup(m, d, v).None?
    ensures f in {d} + TableFrames(m.dirs[d], 0)
  {
    assert FrameOf(m, owner[f]) == Some(f);
    UserMapped(m, owner, extra, all, f);
  }

  lemma {:induction false} UserMapped(m: Memory, owner: map<nat, Role>, extra: set<nat>, all: set<nat>, f: nat)
    requires Owned(m, owner, extra, all) && f in owner
    ensures owner[f].User? ==> owner[f].i * ENTRIES + owner[f].j < USERPAGES
    ensures owner[f].User? ==> Lookup(m, owner[f].dir, owner[f].i * ENTRIES + owner[f].j).Some?
  {
    assert FrameOf(m, owner[f]) == Some(f);
  }

  /** Page tables of one directory are in different frames. */
  lemma {:induction false} TablesDistinct(m: Memory, owner: map<nat, Role>, extra: set<nat>, all: set<nat>, d: nat)
    requires Owned(m, owner, extra, all) && d in m.dirs
    ensures forall i, k :: i in m.dirs[d] && k in m.dirs[d] && i != k ==> m.dirs[d][i].frame != m.dirs[d][k].frame
    ensures forall i :: i in m.dirs[d] ==> i < ENTRIES
  {
    forall i | i in m.dirs[d]
      ensures m.dirs[d][i].frame in owner && owner[m.dirs[d][i].frame] == Tab(d, i) && i < ENTRIES
    {
      TableDistinct(m, owner, extra, all, d, i);
    }
  }
}
