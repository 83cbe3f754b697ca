/**
  Directory entries and link counts: dirlookup and dirlink (Lab/code/fs.c:519-579), and create,
  sys_link, isdirempty and sys_unlink (Lab/code/sysfile.c:119-284), once paths have been resolved
  to a directory and a last name.
 */
module Links {
  import opened Options

  const DIRSIZ := 14

  datatype Kind = File | Dir | Dev

  /** Inode number 0 marks an empty slot. */
  datatype Entry = Entry(inum: nat, name: string)

  /** `depth` is not stored by the file system: it is a directory's distance from the root. */
  datatype Inode = Inode(kind: Kind, nlink: nat, ents: seq<Entry>, depth: nat)

  datatype Tree = Tree(inodes: map<nat, Inode>, root: nat)

  /** What is stored and compared of a name. */
  function Trunc(name: string): string {
    if |name| <= DIRSIZ then name else name[..DIRSIZ]
  }

  /** The first slot from k on that holds a name; |ents| when there is none. */
  function FirstNamed(ents: seq<Entry>, name: string, k: nat): (i: nat)
    requires k <= |ents|
    ensures k <= i <= |ents| && (i < |ents| ==> ents[i].inum != 0 && ents[i].name == Trunc(name))
    ensures forall j :: k <= j < i ==> ents[j].inum == 0 || ents[j].name != Trunc(name)
    decreases |ents| - k
  {
    if k == |ents| || (ents[k].inum != 0 && ents[k].name == Trunc(name)) then k else FirstNamed(ents, name, k + 1)
  }

  /** The first empty slot from k on; |ents| when there is none. */
  function FirstFree(ents: seq<Entry>, k: nat): (i: nat)
    requires k <= |ents|
    ensures k <= i <= |ents| && (i < |ents| ==> ents[i].inum == 0)
    ensures forall j :: k <= j < i ==> ents[j].inum != 0
    decreases |ents| - k
  {
    if k == |ents| || ents[k].inum == 0 then k else FirstFree(ents, k + 1)
  }

  function Put(ents: seq<Entry>, k: nat, e: Entry): seq<Entry>
    requires k <= |ents|
  {
    if k < |ents| then ents[k := e] else ents + [e]
  }

  predicate LiveDir(t: Tree, d: nat) {
    d in t.inodes && t.inodes[d].kind == Dir && t.inodes[d].nlink > 0
  }

  /** The inode named by slot j of live directory d, past its two dot entries; 0 for none. */
  function Ref(t: Tree, d: nat, j: nat): nat {
    if LiveDir(t, d) && 2 <= j < |t.inodes[d].ents| then t.inodes[d].ents[j].inum else 0
  }

  /** The live entries that name inode i. */
  function Names(t: Tree, i: nat): set<(nat, nat)> {
    set d, j | d in t.inodes && 0 <= j < |t.inodes[d].ents| && Ref(t, d, j) == i && i != 0 :: (d, j)
  }

  predicate IsSubDir(t: Tree, d: nat, j: nat) {
    Ref(t, d, j) in t.inodes && t.inodes[Ref(t, d, j)].kind == Dir
  }

  /** The entries of directory d that name directories. */
  function SubDirs(t: Tree, d: nat): set<nat> {
    if d in t.inodes then set j: nat | j < |t.inodes[d].ents| && IsSubDir(t, d, j) else {}
  }

  // ---- what every operation keeps ----

  /** "." and ".." come first, and no two entries have the same name. */
  ghost predicate Shaped(d: nat, ents: seq<Entry>) {
    && |ents| >= 2 && ents[0] == Entry(d, ".") && ents[1].name == ".." && ents[1].inum != 0 && d != 0
    && (forall i, j :: 0 <= i < j < |ents| && ents[i].inum != 0 && ents[j].inum != 0 ==> ents[i].name != ents[j].name)
    && (forall i :: 0 <= i < |ents| ==> |ents[i].name| <= DIRSIZ)
  }

  /** Entry j of d names an inode that is in use; a directory it names points back. */
  ghost predicate Sound(t: Tree, d: nat, j: nat)
    requires d in t.inodes
  {
    var c := Ref(t, d, j);
    && c in t.inodes && t.inodes[c].nlink > 0 && c != t.root
    && (t.inodes[c].kind == Dir ==>
          |t.inodes[c].ents| >= 2 && t.inodes[c].ents[1].inum == d && t.inodes[c].depth == t.inodes[d].depth + 1)
  }

  /** A directory that has been unlinked and is still in use. */
  predicate DeadDir(t: Tree, d: nat) {
    d in t.inodes && t.inodes[d].kind == Dir && t.inodes[d].nlink == 0
  }

  ghost predicate Entries(t: Tree) {
    && 0 !in t.inodes && LiveDir(t, t.root) && t.inodes[t.root].depth == 0
    && (forall d :: d in t.inodes && t.inodes[d].kind == Dir ==> Shaped(d, t.inodes[d].ents))
    && (forall d, j :: d in t.inodes && Ref(t, d, j) != 0 ==> Sound(t, d, j))
    && (forall d, j :: DeadDir(t, d) && 2 <= j < |t.inodes[d].ents| ==> t.inodes[d].ents[j].inum == 0)
  }

  /** A file's link count is the number of live entries that name it; a directory in use is named
      once, unless it is the root, and counts itself and its subdirectories. */
  ghost predicate Counted(t: Tree, i: nat)
    requires i in t.inodes
  {
    if t.inodes[i].kind != Dir then t.inodes[i].nlink == |Names(t, i)|
    else if t.inodes[i].nlink == 0 then Names(t, i) == {}
    else t.inodes[i].nlink == 1 + |SubDirs(t, i)| && |Names(t, i)| == if i == t.root then 0 else 1
  }

  ghost predicate Inv(t: Tree) {
    Entries(t) && forall i :: i in t.inodes ==> Counted(t, i)
  }

  // ---- one entry changes ----

  /** The live entries are the same except slot k of dp, which changed from a to b. */
  ghost predicate OneRef(t: Tree, u: Tree, dp: nat, k: nat, a: nat, b: nat) {
    && Ref(t, dp, k) == a && Ref(u, dp, k) == b
    && forall d: nat, j: nat :: d != dp || j != k ==> Ref(u, d, j) == Ref(t, d, j)
  }

  lemma {:induction false} NamesAre(t: Tree, i: nat)
    requires i != 0
    ensures forall d: nat, j: nat :: (d, j) in Names(t, i) <==> Ref(t, d, j) == i
  {
  }

  lemma {:induction false} NamesChange(t: Tree, u: Tree, dp: nat, k: nat, a: nat, b: nat, i: nat)
    requires OneRef(t, u, dp, k, a, b) && i != 0 && a != b
    ensures Names(u, i) == if i == b then Names(t, i) + {(dp, k)} else if i == a then Names(t, i) - {(dp, k)}
      else Names(t, i)
    ensures |Names(u, i)| == |Names(t, i)| + (if i == b then 1 else if i == a then -1 else 0)
  {
    NamesAre(t, i);
    NamesAre(u, i);
    hide Ref, Names;
    if i == b {
      assert (dp, k) !in Names(t, i);
      SamePairs(Names(u, i), Names(t, i) + {(dp, k)});
    } else if i == a {
      assert (dp, k) in Names(t, i);
      SamePairs(Names(u, i), Names(t, i) - {(dp, k)});
    } else {
      SamePairs(Names(u, i), Names(t, i));
    }
  }

  lemma {:induction false} SamePairs(s: set<(nat, nat)>, r: set<(nat, nat)>)
    requires forall d: nat, j: nat :: (d, j) in s <==> (d, j) in r
    ensures s == r
  {
    forall p: (nat, nat) ensures p in s <==> p in r
    {
      assert p == (p.0, p.1);
    }
  }

  lemma {:induction false} SubDirsAre(t: Tree, d: nat)
    requires 0 !in t.inodes
    ensures forall j: nat :: j in SubDirs(t, d) <==> IsSubDir(t, d, j)
  {
  }

  /** Inodes named by live entries keep their kind. */
  ghost predicate SameKinds(t: Tree, u: Tree) {
    && 0 !in t.inodes && 0 !in u.inodes
    && forall c :: c in t.inodes && t.inodes[c].nlink > 0 ==> c in u.inodes && u.inodes[c].kind == t.inodes[c].kind
  }

  lemma {:induction false} SubDirSameAt(t: Tree, u: Tree, dp: nat, k: nat, a: nat, b: nat, d: nat, j: nat)
    requires OneRef(t, u, dp, k, a, b) && SameKinds(t, u) && Entries(t) && (d != dp || j != k)
    ensures IsSubDir(u, d, j) <==> IsSubDir(t, d, j)
  {
    if Ref(t, d, j) != 0 {
      assert Sound(t, d, j);
    }
  }

  lemma {:induction false} SubDirsSame(t: Tree, u: Tree, dp: nat, k: nat, a: nat, b: nat, d: nat)
    requires OneRef(t, u, dp, k, a, b) && SameKinds(t, u) && d != dp
    requires Entries(t)
    ensures SubDirs(u, d) == SubDirs(t, d)
  {
    SubDirsAre(t, d);
    SubDirsAre(u, d);
    hide SubDirs, IsSubDir, Entries, OneRef, SameKinds;
    forall j: nat ensures IsSubDir(u, d, j) <==> IsSubDir(t, d, j)
    {
      SubDirSameAt(t, u, dp, k, a, b, d, j);
    }
  }

  lemma {:induction false} DropOne(s: set<nat>, k: nat)
    ensures |s - {k}| == |s| - if k in s then 1 else 0
  {
    if k !in s {
      assert s - {k} == s;
    }
  }

  lemma {:induction false} SubDirsChange(t: Tree, u: Tree, dp: nat, k: nat, a: nat, b: nat)
    requires OneRef(t, u, dp, k, a, b) && SameKinds(t, u)
    requires Entries(t)
    ensures SubDirs(u, dp) - {k} == SubDirs(t, dp) - {k}
    ensures k in SubDirs(u, dp) <==> b in u.inodes && u.inodes[b].kind == Dir
    ensures k in SubDirs(t, dp) <==> a in t.inodes && t.inodes[a].kind == Dir
    ensures |SubDirs(u, dp)| - (if k in SubDirs(u, dp) then 1 else 0) ==
            |SubDirs(t, dp)| - (if k in SubDirs(t, dp) then 1 else 0)
  {
    SubDirsAre(t, dp);
    SubDirsAre(u, dp);
    assert IsSubDir(u, dp, k) <==> b in u.inodes && u.inodes[b].kind == Dir;
    assert IsSubDir(t, dp, k) <==> a in t.inodes && t.inodes[a].kind == Dir;
    hide SubDirs, IsSubDir, Entries, OneRef, SameKinds, Ref;
    forall j: nat | j != k ensures IsSubDir(u, dp, j) <==> IsSubDir(t, dp, j)
    {
      SubDirSameAt(t, u, dp, k, a, b, dp, j);
    }
    assert SubDirs(u, dp) - {k} == SubDirs(t, dp) - {k};
    DropOne(SubDirs(u, dp), k);
    DropOne(SubDirs(t, dp), k);
  }

  // ---- the operations on values ----

  function Entered(p: Inode, name: string, i: nat): Inode {
    p.(ents := Put(p.ents, FirstFree(p.ents, 0), Entry(i, Trunc(name))))
  }

  function NewInode(kind: Kind, ino: nat, dp: nat, depth: nat): Inode {
    Inode(kind, 1, if kind == Dir then [Entry(ino, "."), Entry(dp, "..")] else [], if kind == Dir then depth else 0)
  }

  /** create: a new inode, named in dp; a directory adds a link to dp. */
  function Created(t: Tree, dp: nat, name: string, kind: Kind, ino: nat): Tree
    requires dp in t.inodes
  {
    var p := t.inodes[dp];
    var q := Entered(p, name, ino).(nlink := if kind == Dir then p.nlink + 1 else p.nlink);
    t.(inodes := t.inodes[dp := q][ino := NewInode(kind, ino, dp, p.depth + 1)])
  }

  /** sys_link: another name for inode i. */
  function Linked(t: Tree, i: nat, dp: nat, name: string): Tree
    requires dp in t.inodes && i in t.inodes
  {
    t.(inodes := t.inodes[dp := Entered(t.inodes[dp], name, i)][i := t.inodes[i].(nlink := t.inodes[i].nlink + 1)])
  }

  /** sys_unlink: slot k of dp is emptied; a directory takes a link from dp. */
  function Unlinked(t: Tree, dp: nat, k: nat): Tree
    requires dp in t.inodes && k < |t.inodes[dp].ents| && t.inodes[dp].ents[k].inum in t.inodes
    requires t.inodes[dp].nlink > 0 && t.inodes[t.inodes[dp].ents[k].inum].nlink > 0
  {
    var p := t.inodes[dp];
    var c := p.ents[k].inum;
    var q := p.(ents := p.ents[k := Entry(0, "")], nlink := if t.inodes[c].kind == Dir then p.nlink - 1 else p.nlink);
    t.(inodes := t.inodes[dp := q][c := t.inodes[c].(nlink := t.inodes[c].nlink - 1)])
  }

  /** Directory dp can take a new name. */
  ghost predicate Open(t: Tree, dp: nat, name: string) {
    && dp in t.inodes && t.inodes[dp].kind == Dir
    && FirstNamed(t.inodes[dp].ents, name, 0) == |t.inodes[dp].ents|
  }

  lemma {:induction false} PutShaped(d: nat, ents: seq<Entry>, name: string, i: nat)
    requires Shaped(d, ents) && FirstNamed(ents, name, 0) == |ents| && i != 0
    ensures Shaped(d, Put(ents, FirstFree(ents, 0), Entry(i, Trunc(name)))) && FirstFree(ents, 0) >= 2
    ensures Put(ents, FirstFree(ents, 0), Entry(i, Trunc(name)))[1] == ents[1]
  {
    assert ents[0].inum != 0 && ents[1].inum != 0;
    var k := FirstFree(ents, 0);
    var q := Put(ents, k, Entry(i, Trunc(name)));
    assert forall j :: 0 <= j < |ents| && j != k ==> q[j] == ents[j];
    hide FirstFree, FirstNamed, Trunc;
  }

  // ---- create ----

  lemma {:induction false} CreatedRefs(t: Tree, dp: nat, name: string, kind: Kind, ino: nat)
    requires Entries(t) && Open(t, dp, name) && LiveDir(t, dp) && ino !in t.inodes && ino != 0
    ensures OneRef(t, Created(t, dp, name, kind, ino), dp, FirstFree(t.inodes[dp].ents, 0), 0, ino)
  {
    PutShaped(dp, t.inodes[dp].ents, name, ino);
    hide FirstFree, FirstNamed, Trunc, Shaped;
  }

  lemma {:induction false} CreatedShapes(t: Tree, dp: nat, name: string, kind: Kind, ino: nat, u: Tree)
    requires Entries(t) && Open(t, dp, name) && LiveDir(t, dp) && ino !in t.inodes && ino != 0
    requires u == Created(t, dp, name, kind, ino)
    ensures forall d :: d in u.inodes && u.inodes[d].kind == Dir ==> Shaped(d, u.inodes[d].ents)
    ensures u.inodes[dp].ents[1] == t.inodes[dp].ents[1] && |u.inodes[dp].ents| >= 2
  {
    PutShaped(dp, t.inodes[dp].ents, name, ino);
    assert dp != 0;
    assert Shaped(ino, [Entry(ino, "."), Entry(dp, "..")]);
    hide FirstFree, FirstNamed, Trunc, Shaped, Put, Ref;
  }

  lemma {:induction false} CreatedSound(t: Tree, dp: nat, name: string, kind: Kind, ino: nat, u: Tree, d: nat, j: nat)
    requires Entries(t) && Open(t, dp, name) && LiveDir(t, dp) && ino !in t.inodes && ino != 0
    requires u == Created(t, dp, name, kind, ino) && d in u.inodes && Ref(u, d, j) != 0
    ensures Sound(u, d, j)
  {
    CreatedRefs(t, dp, name, kind, ino);
    CreatedShapes(t, dp, name, kind, ino, u);
    hide FirstFree, FirstNamed, Trunc, Shaped, Put;
    if d != dp || j != FirstFree(t.inodes[dp].ents, 0) {
      assert Ref(t, d, j) == Ref(u, d, j);
      assert Sound(t, d, j);
    }
    hide Ref;
  }

  lemma {:induction false} CreatedEntries(t: Tree, dp: nat, name: string, kind: Kind, ino: nat, u: Tree)
    requires Entries(t) && Open(t, dp, name) && LiveDir(t, dp) && ino !in t.inodes && ino != 0
    requires u == Created(t, dp, name, kind, ino)
    ensures Entries(u) && SameKinds(t, u)
  {
    CreatedShapes(t, dp, name, kind, ino, u);
    forall d, j | d in u.inodes && Ref(u, d, j) != 0
      ensures Sound(u, d, j)
    {
      CreatedSound(t, dp, name, kind, ino, u, d, j);
    }
    hide FirstFree, FirstNamed, Trunc, Shaped, Put, Ref, Sound;
  }

  /** An inode that is not in use is not named. */
  lemma {:induction false} Unnamed(t: Tree, i: nat)
    requires Entries(t) && i !in t.inodes && i != 0
    ensures Names(t, i) == {}
  {
    NamesAre(t, i);
    forall d: nat, j: nat ensures Ref(t, d, j) != i
    {
      if Ref(t, d, j) != 0 {
        assert Sound(t, d, j);
      }
    }
    hide Names, Ref;
  }

  lemma {:induction false} InvGives(t: Tree, i: nat)
    requires Inv(t)
    ensures Entries(t) && 0 !in t.inodes && t.root in t.inodes && LiveDir(t, t.root)
    ensures i in t.inodes ==> Counted(t, i)
    ensures i !in t.inodes ==> SubDirs(t, i) == {}
  {
  }

  lemma {:induction false} CreatedCounted(t: Tree, dp: nat, name: string, kind: Kind, ino: nat, u: Tree, i: nat)
    requires Inv(t) && Open(t, dp, name) && LiveDir(t, dp) && ino !in t.inodes && ino != 0
    requires u == Created(t, dp, name, kind, ino) && i in u.inodes
    ensures Counted(u, i)
  {
    hide Put, FirstFree, FirstNamed, Trunc, Shaped, Open, Names, SubDirs, Ref, Sound, OneRef, Entries, SameKinds, Inv;
    InvGives(t, i);
    InvGives(t, ino);
    var k := FirstFree(t.inodes[dp].ents, 0);
    CreatedRefs(t, dp, name, kind, ino);
    CreatedEntries(t, dp, name, kind, ino, u);
    NamesChange(t, u, dp, k, 0, ino, i);
    Unnamed(t, ino);
    if i == dp {
      SubDirsChange(t, u, dp, k, 0, ino);
    } else {
      SubDirsSame(t, u, dp, k, 0, ino, i);
    }
  }

  lemma {:induction false} CreatedKeeps(t: Tree, dp: nat, name: string, kind: Kind, ino: nat, u: Tree)
    requires Inv(t) && Open(t, dp, name) && LiveDir(t, dp) && ino !in t.inodes && ino != 0
    requires u == Created(t, dp, name, kind, ino)
    ensures Inv(u)
  {
    hide Counted, Entries, Open, Created;
    CreatedEntries(t, dp, name, kind, ino, u);
    forall i | i in u.inodes ensures Counted(u, i)
    {
      CreatedCounted(t, dp, name, kind, ino, u, i);
    }
  }

  // ---- link ----

  ghost predicate CanLink(t: Tree, i: nat, dp: nat, name: string) {
    Open(t, dp, name) && i in t.inodes && t.inodes[i].kind != Dir && t.inodes[i].nlink > 0
  }

  lemma {:induction false} LinkedRefs(t: Tree, i: nat, dp: nat, name: string)
    requires Entries(t) && CanLink(t, i, dp, name) && LiveDir(t, dp)
    ensures OneRef(t, Linked(t, i, dp, name), dp, FirstFree(t.inodes[dp].ents, 0), 0, i)
  {
    PutShaped(dp, t.inodes[dp].ents, name, i);
    hide FirstFree, FirstNamed, Trunc, Shaped;
  }

  lemma {:induction false} LinkedShapes(t: Tree, i: nat, dp: nat, name: string, u: Tree)
    requires Entries(t) && CanLink(t, i, dp, name) && u == Linked(t, i, dp, name)
    ensures forall d :: d in u.inodes && u.inodes[d].kind == Dir ==> Shaped(d, u.inodes[d].ents)
    ensures u.inodes[dp].ents[1] == t.inodes[dp].ents[1] && |u.inodes[dp].ents| >= 2
  {
    PutShaped(dp, t.inodes[dp].ents, name, i);
    hide FirstFree, FirstNamed, Trunc, Shaped, Put, Ref;
  }

  lemma {:induction false} LinkedSound(t: Tree, i: nat, dp: nat, name: string, u: Tree, d: nat, j: nat)
    requires Entries(t) && CanLink(t, i, dp, name) && LiveDir(t, dp) && u == Linked(t, i, dp, name)
    requires d in u.inodes && Ref(u, d, j) != 0
    ensures Sound(u, d, j)
  {
    LinkedRefs(t, i, dp, name);
    LinkedShapes(t, i, dp, name, u);
    hide FirstFree, FirstNamed, Trunc, Shaped, Put;
    if d != dp || j != FirstFree(t.inodes[dp].ents, 0) {
      assert Ref(t, d, j) == Ref(u, d, j);
      assert Sound(t, d, j);
    }
    hide Ref;
  }

  lemma {:induction false} LinkedEntries(t: Tree, i: nat, dp: nat, name: string, u: Tree)
    requires Entries(t) && CanLink(t, i, dp, name) && LiveDir(t, dp) && u == Linked(t, i, dp, name)
    ensures Entries(u) && SameKinds(t, u)
  {
    LinkedShapes(t, i, dp, name, u);
    forall d, j | d in u.inodes && Ref(u, d, j) != 0
      ensures Sound(u, d, j)
    {
      LinkedSound(t, i, dp, name, u, d, j);
    }
    hide FirstFree, FirstNamed, Trunc, Shaped, Put, Ref, Sound;
  }

  lemma {:induction false} LinkedCounted(t: Tree, i: nat, dp: nat, name: string, u: Tree, x: nat)
    requires Inv(t) && CanLink(t, i, dp, name) && LiveDir(t, dp) && u == Linked(t, i, dp, name) && x in u.inodes
    ensures Counted(u, x)
  {
    hide Put, FirstFree, FirstNamed, Trunc, Shaped, Open, Names, SubDirs, Ref, Sound, OneRef, Entries, SameKinds, Inv;
    InvGives(t, x);
    var k := FirstFree(t.inodes[dp].ents, 0);
    LinkedRefs(t, i, dp, name);
    LinkedEntries(t, i, dp, name, u);
    NamesChange(t, u, dp, k, 0, i, x);
    if x == dp {
      SubDirsChange(t, u, dp, k, 0, i);
    } else {
      SubDirsSame(t, u, dp, k, 0, i, x);
    }
  }

  lemma {:induction false} LinkedKeeps(t: Tree, i: nat, dp: nat, name: string, u: Tree)
    requires Inv(t) && CanLink(t, i, dp, name) && LiveDir(t, dp) && u == Linked(t, i, dp, name)
    ensures Inv(u)
  {
    hide Counted, Entries, Open, Linked;
    LinkedEntries(t, i, dp, name, u);
    forall x | x in u.inodes ensures Counted(u, x)
    {
      LinkedCounted(t, i, dp, name, u, x);
    }
  }

  // ---- unlink ----

  ghost predicate EmptyDir(ents: seq<Entry>) {
    forall j :: 2 <= j < |ents| ==> ents[j].inum == 0
  }

  /** Slot k of dp names something that may be unlinked. */
  ghost predicate CanUnlink(t: Tree, dp: nat, k: nat) {
    && LiveDir(t, dp) && Ref(t, dp, k) in t.inodes
    && (t.inodes[Ref(t, dp, k)].kind == Dir ==> EmptyDir(t.inodes[Ref(t, dp, k)].ents))
  }

  /** What the counts say about the inode to unlink. */
  lemma {:induction false} ToUnlink(t: Tree, dp: nat, k: nat, c: nat)
    requires Inv(t) && CanUnlink(t, dp, k) && c == Ref(t, dp, k)
    ensures Sound(t, dp, k) && c != dp && c != t.root && c != 0 && (dp, k) in Names(t, c)
    ensures t.inodes[c].kind == Dir ==> t.inodes[c].nlink == 1 && Names(t, c) == {(dp, k)} && t.inodes[dp].nlink > 1
  {
    hide Counted;
    NamesAre(t, c);
    assert Sound(t, dp, k) && Counted(t, c) && Counted(t, dp);
    if t.inodes[c].kind == Dir {
      UnlinkedDir(t, dp, k, c);
    }
  }

  lemma {:induction false} UnlinkedDir(t: Tree, dp: nat, k: nat, c: nat)
    requires 0 !in t.inodes && CanUnlink(t, dp, k) && c == Ref(t, dp, k) && t.inodes[c].kind == Dir
    requires Counted(t, c) && Counted(t, dp) && Sound(t, dp, k) && (dp, k) in Names(t, c)
    ensures t.inodes[c].nlink == 1 && Names(t, c) == {(dp, k)} && t.inodes[dp].nlink > 1
  {
    SubDirsAre(t, c);
    SubDirsAre(t, dp);
    assert forall j: nat :: Ref(t, c, j) == 0;
    assert IsSubDir(t, dp, k) && forall j: nat :: !IsSubDir(t, c, j);
    hide Names, SubDirs, Ref, IsSubDir;
    assert SubDirs(t, c) == {};
    OnlyOne(Names(t, c), (dp, k));
    assert k in SubDirs(t, dp) && |SubDirs(t, dp) - {k}| == |SubDirs(t, dp)| - 1;
  }

  lemma {:induction false} OnlyOne(s: set<(nat, nat)>, x: (nat, nat))
    requires |s| == 1 && x in s
    ensures s == {x}
  {
    assert |s - {x}| == 0;
  }

  /** What unlinking slot k of dp changes. */
  ghost predicate UnlinkFields(t: Tree, dp: nat, k: nat, c: nat, u: Tree) {
    && u.root == t.root && u.inodes.Keys == t.inodes.Keys && dp in t.inodes && c in t.inodes && dp != c && c != 0
    && (forall x :: x in t.inodes ==> u.inodes[x].kind == t.inodes[x].kind && u.inodes[x].depth == t.inodes[x].depth)
    && (forall x :: x in t.inodes && x != dp ==> u.inodes[x].ents == t.inodes[x].ents)
    && (forall x :: x in t.inodes && x != dp && x != c ==> u.inodes[x].nlink == t.inodes[x].nlink)
    && u.inodes[c].nlink == t.inodes[c].nlink - 1 && u.inodes[dp].nlink > 0 && t.inodes[dp].nlink > 0
    && 2 <= k < |t.inodes[dp].ents| && u.inodes[dp].ents == t.inodes[dp].ents[k := Entry(0, "")]
  }

  lemma {:induction false} UnlinkFieldsAre(t: Tree, dp: nat, k: nat, c: nat, u: Tree)
    requires Inv(t) && CanUnlink(t, dp, k) && c == Ref(t, dp, k) && t.inodes[c].nlink > 0
    requires u == Unlinked(t, dp, k)
    ensures UnlinkFields(t, dp, k, c, u)
  {
    ToUnlink(t, dp, k, c);
    hide Inv, Sound, Names, EmptyDir;
    UnlinkFieldsOf(t, dp, k, c, u);
  }

  lemma {:induction false} UnlinkFieldsOf(t: Tree, dp: nat, k: nat, c: nat, u: Tree)
    requires LiveDir(t, dp) && 2 <= k < |t.inodes[dp].ents| && t.inodes[dp].ents[k].inum == c && c in t.inodes
    requires dp != c && c != 0 && t.inodes[c].nlink > 0 && (t.inodes[c].kind == Dir ==> t.inodes[dp].nlink > 1)
    requires u == Unlinked(t, dp, k)
    ensures UnlinkFields(t, dp, k, c, u)
  {
  }

  lemma {:induction false} UnlinkedRefs(t: Tree, dp: nat, k: nat, c: nat, u: Tree)
    requires Inv(t) && CanUnlink(t, dp, k) && c == Ref(t, dp, k) && t.inodes[c].nlink > 0
    requires u == Unlinked(t, dp, k)
    ensures OneRef(t, u, dp, k, c, 0)
  {
    UnlinkFieldsAre(t, dp, k, c, u);
    ToUnlink(t, dp, k, c);
    hide Inv, Sound, Names, Unlinked;
    assert t.inodes[c].kind == Dir ==> EmptyDir(t.inodes[c].ents) && t.inodes[c].nlink == 1;
    hide CanUnlink;
    forall d: nat, j: nat | d != dp || j != k ensures Ref(u, d, j) == Ref(t, d, j)
    {
      OtherRef(t, dp, k, c, u, d, j);
    }
  }

  lemma {:induction false} OtherRef(t: Tree, dp: nat, k: nat, c: nat, u: Tree, d: nat, j: nat)
    requires UnlinkFields(t, dp, k, c, u) && (d != dp || j != k)
    requires t.inodes[c].kind == Dir ==> EmptyDir(t.inodes[c].ents) && t.inodes[c].nlink == 1
    ensures Ref(u, d, j) == Ref(t, d, j)
  {
  }

  lemma {:induction false} UnlinkedSound(t: Tree, dp: nat, k: nat, c: nat, u: Tree, d: nat, j: nat)
    requires Inv(t) && CanUnlink(t, dp, k) && c == Ref(t, dp, k) && t.inodes[c].nlink > 0
    requires u == Unlinked(t, dp, k) && d in u.inodes && Ref(u, d, j) != 0
    ensures Sound(u, d, j)
  {
    hide Names, SubDirs, Entries, CanUnlink, Counted, Unlinked;
    UnlinkedRefs(t, dp, k, c, u);
    UnlinkFieldsAre(t, dp, k, c, u);
    hide Ref;
    assert (d != dp || j != k) && Ref(t, d, j) == Ref(u, d, j);
    SoundAt(t, d, j);
    if Ref(t, d, j) == c {
      StillNamed(t, dp, k, c, d, j);
    }
  }

  lemma {:induction false} SoundAt(t: Tree, d: nat, j: nat)
    requires Entries(t) && Ref(t, d, j) != 0
    ensures d in t.inodes && Sound(t, d, j)
  {
  }

  /** An inode named twice is a file with a link to spare. */
  lemma {:induction false} StillNamed(t: Tree, dp: nat, k: nat, c: nat, d: nat, j: nat)
    requires Inv(t) && CanUnlink(t, dp, k) && c == Ref(t, dp, k) == Ref(t, d, j) && (d != dp || j != k)
    ensures t.inodes[c].kind != Dir && t.inodes[c].nlink > 1
  {
    hide Entries, SubDirs, Names;
    InvGives(t, c);
    ToUnlink(t, dp, k, c);
    NamesAre(t, c);
    hide Ref, CanUnlink;
    TwoAtLeast(Names(t, c), (d, j), (dp, k));
  }

  lemma {:induction false} TwoAtLeast(s: set<(nat, nat)>, x: (nat, nat), y: (nat, nat))
    requires x in s && y in s && x != y
    ensures |s| >= 2
  {
    assert |s - {x}| == |s| - 1 && y in s - {x};
    assert |s - {x} - {y}| == |s| - 2;
  }

  lemma {:induction false} UnlinkedShapes(t: Tree, dp: nat, k: nat, c: nat, u: Tree)
    requires Entries(t) && UnlinkFields(t, dp, k, c, u)
    ensures forall d :: d in u.inodes && u.inodes[d].kind == Dir ==> Shaped(d, u.inodes[d].ents)
  {
    if t.inodes[dp].kind == Dir {
      HoleShaped(dp, t.inodes[dp].ents, k);
    }
    hide Shaped, Ref, Sound;
  }

  lemma {:induction false} HoleShaped(d: nat, ents: seq<Entry>, k: nat)
    requires Shaped(d, ents) && 2 <= k < |ents|
    ensures Shaped(d, ents[k := Entry(0, "")])
  {
  }

  lemma {:induction false} UnlinkedEntries(t: Tree, dp: nat, k: nat, c: nat, u: Tree)
    requires Inv(t) && CanUnlink(t, dp, k) && c == Ref(t, dp, k) && t.inodes[c].nlink > 0
    requires u == Unlinked(t, dp, k)
    ensures Entries(u) && SameKinds(t, u)
  {
    UnlinkFieldsAre(t, dp, k, c, u);
    forall d, j | d in u.inodes && Ref(u, d, j) != 0
      ensures Sound(u, d, j)
    {
      UnlinkedSound(t, dp, k, c, u, d, j);
    }
    ToUnlink(t, dp, k, c);
    assert t.inodes[c].kind == Dir ==> EmptyDir(t.inodes[c].ents);
    hide Sound, Shaped, Names, Unlinked, CanUnlink, Counted;
    UnlinkedShapes(t, dp, k, c, u);
    UnlinkedDead(t, dp, k, c, u);
    hide Ref;
  }

  lemma {:induction false} UnlinkedDead(t: Tree, dp: nat, k: nat, c: nat, u: Tree)
    requires Entries(t) && UnlinkFields(t, dp, k, c, u) && c != t.root
    requires t.inodes[c].kind == Dir ==> EmptyDir(t.inodes[c].ents)
    ensures 0 !in u.inodes && LiveDir(u, u.root) && u.inodes[u.root].depth == 0 && SameKinds(t, u)
    ensures forall d, j :: DeadDir(u, d) && 2 <= j < |u.inodes[d].ents| ==> u.inodes[d].ents[j].inum == 0
  {
    hide Shaped, Sound, Ref;
  }

  lemma {:induction false} UnlinkedCounted(t: Tree, dp: nat, k: nat, c: nat, u: Tree, x: nat)
    requires Inv(t) && CanUnlink(t, dp, k) && c == Ref(t, dp, k) && t.inodes[c].nlink > 0
    requires u == Unlinked(t, dp, k) && x in u.inodes
    ensures Counted(u, x)
  {
    hide Names, SubDirs, Sound, OneRef, Entries, SameKinds, Inv;
    InvGives(t, x);
    ToUnlink(t, dp, k, c);
    UnlinkedRefs(t, dp, k, c, u);
    UnlinkedEntries(t, dp, k, c, u);
    NamesChange(t, u, dp, k, c, 0, x);
    if x == dp {
      SubDirsChange(t, u, dp, k, c, 0);
      assert 0 !in u.inodes;
    } else {
      SubDirsSame(t, u, dp, k, c, 0, x);
    }
    hide Ref, CanUnlink;
  }

  lemma {:induction false} UnlinkedKeeps(t: Tree, dp: nat, k: nat, c: nat, u: Tree)
    requires Inv(t) && CanUnlink(t, dp, k) && c == Ref(t, dp, k) && t.inodes[c].nlink > 0
    requires u == Unlinked(t, dp, k)
    ensures Inv(u)
  {
    hide Counted, Entries, CanUnlink, Unlinked;
    UnlinkedEntries(t, dp, k, c, u);
    forall x | x in u.inodes ensures Counted(u, x)
    {
      UnlinkedCounted(t, dp, k, c, u, x);
    }
  }
}
