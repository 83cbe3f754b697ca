/**
  Runs of create, link, unlink and inode reclamation one after the other, and the operations as
  methods that scan and rewrite directories (Lab/code/sysfile.c:119-284, Lab/code/fs.c:525-579).
 */
module LinkRuns {
  import opened Options
  import opened Links

  /** An operation on a resolved directory dp; `ino` is the inode that ialloc hands out. */
  datatype Op =
    | Create(dp: nat, name: string, kind: Kind, ino: nat)
    | Link(i: nat, dp: nat, name: string)
    | Unlink(dp: nat, name: string)
    | Reclaim(i: nat)      // the last reference to an unlinked inode goes

  predicate IsDir(t: Tree, d: nat) {
    d in t.inodes && t.inodes[d].kind == Dir
  }

  function Slot(t: Tree, dp: nat, name: string): nat
    requires dp in t.inodes
  {
    FirstNamed(t.inodes[dp].ents, name, 0)
  }

  predicate Found(t: Tree, dp: nat, name: string)
    requires dp in t.inodes
  {
    Slot(t, dp, name) < |t.inodes[dp].ents|
  }

  const MAXENTS := 4992    // MAXFILE * BSIZE / sizeof(struct dirent)

  /** A further entry would lie past the largest file: dirlink panics. */
  predicate NoRoom(t: Tree, dp: nat)
    requires dp in t.inodes
  {
    FirstFree(t.inodes[dp].ents, 0) >= MAXENTS
  }

  /** The tree after an operation; None when it cannot happen or panics. */
  ghost function Next(t: Tree, op: Op): Option<Tree> {
    match op
    case Create(dp, name, kind, ino) =>
      if !IsDir(t, dp) then None
      else if Found(t, dp, name) then Some(t)
      else if ino in t.inodes || ino == 0 || NoRoom(t, dp) then None
      else Some(Created(t, dp, name, kind, ino))
    case Link(i, dp, name) =>
      if i !in t.inodes || t.inodes[i].nlink == 0 then None
      else if t.inodes[i].kind == Dir || !IsDir(t, dp) || Found(t, dp, name) then Some(t)
      else if NoRoom(t, dp) then None
      else Some(Linked(t, i, dp, name))
    case Unlink(dp, name) =>
      if !IsDir(t, dp) then None
      else if Trunc(name) == "." || Trunc(name) == ".." || !Found(t, dp, name) then Some(t)
      else
        var c := t.inodes[dp].ents[Slot(t, dp, name)].inum;
        if c !in t.inodes || t.inodes[c].nlink == 0 || t.inodes[dp].nlink == 0 then None
        else if t.inodes[c].kind == Dir && !EmptyDir(t.inodes[c].ents) then Some(t)
        else Some(Unlinked(t, dp, Slot(t, dp, name)))
    case Reclaim(i) =>
      if i !in t.inodes || t.inodes[i].nlink > 0 then None else Some(t.(inodes := t.inodes - {i}))
  }

  /** The operation would add an entry to a directory that has been unlinked. */
  predicate AddsToDead(t: Tree, op: Op) {
    match op
    case Create(dp, name, _, _) => IsDir(t, dp) && !Found(t, dp, name) && !LiveDir(t, dp)
    case Link(i, dp, name) =>
      i in t.inodes && t.inodes[i].kind != Dir && IsDir(t, dp) && !Found(t, dp, name) && !LiveDir(t, dp)
    case Unlink(_, _) => false
    case Reclaim(_) => false
  }

  // ---- unlink and reclaim ----

  lemma {:induction false} UnlinkKeeps(t: Tree, dp: nat, name: string, u: Tree)
    requires Inv(t) && Next(t, Unlink(dp, name)) == Some(u)
    ensures Inv(u)
  {
    if u != t {
      var k := Slot(t, dp, name);
      assert Shaped(dp, t.inodes[dp].ents);
      assert k >= 2 && Ref(t, dp, k) == t.inodes[dp].ents[k].inum;
      hide Inv, Unlinked, FirstNamed;
      UnlinkedKeeps(t, dp, k, Ref(t, dp, k), u);
    }
  }

  lemma {:induction false} ReclaimKeeps(t: Tree, i: nat, u: Tree)
    requires Inv(t) && i in t.inodes && t.inodes[i].nlink == 0 && u == t.(inodes := t.inodes - {i})
    ensures Inv(u)
  {
    forall d: nat, j: nat ensures Ref(u, d, j) == Ref(t, d, j)
    {
    }
    assert OneRef(t, u, 0, 0, 0, 0);
    hide OneRef, Ref, Counted, Entries, SameKinds;
    ReclaimEntries(t, i, u);
    forall x | x in u.inodes ensures Counted(u, x)
    {
      ReclaimCounted(t, i, u, x);
    }
  }

  lemma {:induction false} ReclaimEntries(t: Tree, i: nat, u: Tree)
    requires Entries(t) && i in t.inodes && t.inodes[i].nlink == 0 && u == t.(inodes := t.inodes - {i})
    requires OneRef(t, u, 0, 0, 0, 0)
    ensures Entries(u) && SameKinds(t, u)
  {
    hide Shaped;
    forall d, j | d in u.inodes && Ref(u, d, j) != 0
      ensures Sound(u, d, j)
    {
      SoundAt(t, d, j);
    }
  }

  lemma {:induction false} ReclaimCounted(t: Tree, i: nat, u: Tree, x: nat)
    requires Inv(t) && i in t.inodes && u == t.(inodes := t.inodes - {i}) && x in u.inodes
    requires OneRef(t, u, 0, 0, 0, 0) && SameKinds(t, u)
    ensures Counted(u, x)
  {
    InvGives(t, x);
    NamesAre(t, x);
    NamesAre(u, x);
    hide Names, SubDirs, Entries, Sound, Ref;
    assert Names(u, x) == Names(t, x);
    SubDirsSame(t, u, 0, 0, 0, 0, x);
  }

  lemma {:induction false} PoliteKeeps(t: Tree, op: Op, u: Tree)
    requires Inv(t) && Next(t, op) == Some(u) && !AddsToDead(t, op)
    ensures Inv(u)
  {
    hide Inv, Created, Linked;
    match op
    case Create(dp, name, kind, ino) =>
      if u != t {
        CreatedKeeps(t, dp, name, kind, ino, u);
      }
    case Link(i, dp, name) =>
      if u != t {
        LinkedKeeps(t, i, dp, name, u);
      }
    case Unlink(dp, name) => UnlinkKeeps(t, dp, name, u);
    case Reclaim(i) => ReclaimKeeps(t, i, u);
  }

  // ---- entries in an unlinked directory break the counts ----

  lemma {:induction false} SameRefsSameNames(t: Tree, u: Tree, i: nat)
    requires i != 0 && forall d: nat, j: nat :: Ref(u, d, j) == i <==> Ref(t, d, j) == i
    ensures Names(u, i) == Names(t, i)
  {
    NamesAre(t, i);
    NamesAre(u, i);
    hide Names, Ref;
  }

  lemma {:induction false} CreateInDead(t: Tree, dp: nat, name: string, kind: Kind, ino: nat, u: Tree)
    requires Inv(t) && Next(t, Create(dp, name, kind, ino)) == Some(u) && AddsToDead(t, Create(dp, name, kind, ino))
    ensures !Inv(u)
  {
    InvGives(t, dp);
    Unnamed(t, ino);
    var x := if kind == Dir then dp else ino;
    assert t.inodes[dp].nlink == 0 && dp != t.root && dp != 0 && dp != ino;
    assert Names(t, x) == {};
    NamesAre(t, x);
    hide Names, SubDirs, Inv, Entries, FirstNamed, Trunc;
    DeadEntries(t, dp);
    forall d: nat, j: nat ensures Ref(u, d, j) != x
    {
      DeadRef(t, dp, name, kind, ino, u, d, j);
    }
    SameRefsSameNames(t, u, x);
    assert !Counted(u, x);
    NotCounted(u, x);
  }

  lemma {:induction false} NotCounted(u: Tree, x: nat)
    requires x in u.inodes && !Counted(u, x)
    ensures !Inv(u)
  {
  }

  lemma {:induction false} DeadEntries(t: Tree, dp: nat)
    requires Entries(t) && IsDir(t, dp) && t.inodes[dp].nlink == 0
    ensures forall j :: 2 <= j < |t.inodes[dp].ents| ==> t.inodes[dp].ents[j].inum == 0
  {
  }

  lemma {:induction false} DeadRef(t: Tree, dp: nat, name: string, kind: Kind, ino: nat, u: Tree, d: nat, j: nat)
    requires IsDir(t, dp) && t.inodes[dp].nlink == 0 && ino !in t.inodes && ino != 0 && dp != ino && dp != 0
    requires u == Created(t, dp, name, kind, ino)
    requires forall j :: 2 <= j < |t.inodes[dp].ents| ==> t.inodes[dp].ents[j].inum == 0
    ensures d != dp ==> Ref(u, d, j) == Ref(t, d, j)
    ensures kind != Dir ==> Ref(u, dp, j) == 0
    ensures kind == Dir ==> Ref(u, dp, j) == 0 || Ref(u, dp, j) == ino
  {
    hide FirstNamed, Trunc;
  }

  lemma {:induction false} LinkInDead(t: Tree, i: nat, dp: nat, name: string, u: Tree)
    requires Inv(t) && Next(t, Link(i, dp, name)) == Some(u) && AddsToDead(t, Link(i, dp, name))
    ensures !Inv(u)
  {
    InvGives(t, i);
    assert i != 0 && i != dp && t.inodes[dp].nlink == 0;
    hide Inv, Entries, Names, SubDirs, Ref, FirstNamed, Trunc, FirstFree, Put;
    forall d: nat, j: nat ensures Ref(u, d, j) == Ref(t, d, j)
    {
      LinkedDeadRef(t, i, dp, name, u, d, j);
    }
    SameRefsSameNames(t, u, i);
    assert !Counted(u, i);
    NotCounted(u, i);
  }

  lemma {:induction false} LinkedDeadRef(t: Tree, i: nat, dp: nat, name: string, u: Tree, d: nat, j: nat)
    requires IsDir(t, dp) && t.inodes[dp].nlink == 0 && i in t.inodes && t.inodes[i].kind != Dir
    requires u == Linked(t, i, dp, name)
    ensures Ref(u, d, j) == Ref(t, d, j)
  {
    hide FirstNamed, Trunc, FirstFree, Put;
  }

  /** The counts stay right exactly when no entry goes into an unlinked directory. */
  lemma {:induction false} PoliteIsExact(t: Tree, op: Op, u: Tree)
    requires Inv(t) && Next(t, op) == Some(u)
    ensures Inv(u) <==> !AddsToDead(t, op)
  {
    hide Inv, Next;
    if !AddsToDead(t, op) {
      PoliteKeeps(t, op, u);
    } else {
      match op
      case Create(dp, name, kind, ino) => CreateInDead(t, dp, name, kind, ino, u);
      case Link(i, dp, name) => LinkInDead(t, i, dp, name, u);
    }
  }

  // ---- runs ----

  ghost function Play(t: Tree, run: seq<Op>): Option<Tree> {
    if run == [] then Some(t)
    else
      var u := Play(t, run[..|run| - 1]);
      if u.None? then None else Next(u.value, run[|run| - 1])
  }

  ghost predicate Polite(t: Tree, run: seq<Op>) {
    forall k :: 0 <= k < |run| ==> var u := Play(t, run[..k]); u.Some? ==> !AddsToDead(u.value, run[k])
  }

  /** The file system that mkfs makes, before its files are added: a root directory. */
  function Start(root: nat): Tree {
    Tree(map[root := Inode(Dir, 1, [Entry(root, "."), Entry(root, "..")], 0)], root)
  }

  lemma {:induction false} StartIsSound(root: nat)
    requires root != 0
    ensures Inv(Start(root))
  {
    var t := Start(root);
    NamesAre(t, root);
    SubDirsAre(t, root);
    assert forall d: nat, j: nat :: Ref(t, d, j) == 0;
    assert Names(t, root) == {} && SubDirs(t, root) == {};
  }

  lemma {:induction false} RunKeeps(root: nat, run: seq<Op>)
    requires root != 0 && Play(Start(root), run).Some? && Polite(Start(root), run)
    ensures Inv(Play(Start(root), run).value)
  {
    if run == [] {
      StartIsSound(root);
    } else {
      var n := |run| - 1;
      assert forall k :: 0 <= k < n ==> run[..n][..k] == run[..k] && run[..n][k] == run[k];
      assert Play(Start(root), run[..n]).Some? && !AddsToDead(Play(Start(root), run[..n]).value, run[n]);
      hide Inv, Next, Start, AddsToDead;
      RunKeeps(root, run[..n]);
      PoliteKeeps(Play(Start(root), run[..n]).value, run[n], Play(Start(root), run).value);
    }
  }

  // ---- the condition can fail ----

  lemma {:induction false} PlayOne(t: Tree, run: seq<Op>, u: Tree, op: Op, v: Tree)
    requires Play(t, run) == Some(u) && Next(u, op) == Some(v)
    ensures Play(t, run + [op]) == Some(v)
  {
    hide Next;
    assert (run + [op])[..|run + [op]| - 1] == run;
  }

  function Dots(i: nat, parent: nat): seq<Entry> {
    [Entry(i, "."), Entry(parent, "..")]
  }

  /** The root 1 holds directory 2 under the name "d". */
  function Made(): Tree {
    Tree(map[1 := Inode(Dir, 2, Dots(1, 1) + [Entry(2, "d")], 0), 2 := Inode(Dir, 1, Dots(2, 1), 1)], 1)
  }

  /** It is removed and still in use. */
  function Removed(): Tree {
    Tree(map[1 := Inode(Dir, 1, Dots(1, 1) + [Entry(0, "")], 0), 2 := Inode(Dir, 0, Dots(2, 1), 1)], 1)
  }

  lemma {:induction false} MakeIt()
    ensures Next(Start(1), Create(1, "d", Dir, 2)) == Some(Made())
  {
    var t := Start(1);
    var ents := t.inodes[1].ents;
    assert Slot(t, 1, "d") == 2 && FirstFree(ents, 0) == 2;
    assert Entered(t.inodes[1], "d", 2).ents == Made().inodes[1].ents;
    assert Created(t, 1, "d", Dir, 2).inodes == Made().inodes;
  }

  lemma {:induction false} RemoveIt()
    ensures Next(Made(), Unlink(1, "d")) == Some(Removed())
  {
    var t := Made();
    assert t.inodes[1].ents[2].name == "d" == Trunc("d");
    assert Slot(t, 1, "d") == 2;
    assert (Dots(1, 1) + [Entry(2, "d")])[2 := Entry(0, "")] == Dots(1, 1) + [Entry(0, "")];
    assert Unlinked(t, 1, 2).inodes == Removed().inodes;
  }

  lemma {:induction false} StillSound()
    ensures Inv(Removed())
  {
    StartIsSound(1);
    MakeIt();
    RemoveIt();
    assert !AddsToDead(Start(1), Create(1, "d", Dir, 2)) && !AddsToDead(Made(), Unlink(1, "d"));
    hide Inv, Next, Start, Made, Removed, AddsToDead;
    PoliteKeeps(Start(1), Create(1, "d", Dir, 2), Made());
    PoliteKeeps(Made(), Unlink(1, "d"), Removed());
  }

  lemma {:induction false} StillTakesEntries()
    ensures AddsToDead(Removed(), Create(2, "f", File, 3))
    ensures Next(Removed(), Create(2, "f", File, 3)) == Some(Created(Removed(), 2, "f", File, 3))
  {
    assert Slot(Removed(), 2, "f") == 2 && FirstFree(Removed().inodes[2].ents, 0) == 2;
  }

  /** A directory is made and removed while a process still has it as its working directory, and a
      file is made in it: the counts are wrong, the file has one link and no name. */
  lemma {:induction false} EntryInUnlinkedDirectory(run: seq<Op>) returns (t: Tree)
    requires run == [Create(1, "d", Dir, 2), Unlink(1, "d"), Create(2, "f", File, 3)]
    ensures Play(Start(1), run) == Some(t) && !Inv(t)
    ensures 3 in t.inodes && t.inodes[3].nlink == 1 && Names(t, 3) == {}
  {
    t := Created(Removed(), 2, "f", File, 3);
    MakeIt();
    RemoveIt();
    StillSound();
    StillTakesEntries();
    hide AddsToDead, Inv;
    PoliteIsExact(Removed(), run[2], t);
    NoNameFor3();
    assert Play(Start(1), []) == Some(Start(1));
    hide Next, Start, Inv, Made, Removed, Names;
    PlayOne(Start(1), [], Start(1), run[0], Made());
    PlayOne(Start(1), [] + [run[0]], Made(), run[1], Removed());
    PlayOne(Start(1), [] + [run[0]] + [run[1]], Removed(), run[2], t);
    assert run == [] + [run[0]] + [run[1]] + [run[2]];
  }

  lemma {:induction false} NoNameFor3()
    ensures Names(Created(Removed(), 2, "f", File, 3), 3) == {}
  {
    var t := Created(Removed(), 2, "f", File, 3);
    NamesAre(t, 3);
    hide Names, FirstFree, Trunc;
    assert !LiveDir(t, 2) && !LiveDir(t, 3);
    forall d: nat, j: nat ensures Ref(t, d, j) != 3
    {
    }
    SamePairs(Names(t, 3), {});
  }

  // ---- reachability ----

  /** Directory a has an entry for b. */
  ghost predicate Holds(t: Tree, a: nat, b: nat) {
    exists j: nat :: Ref(t, a, j) == b
  }

  /** A path of entries from the root to directory d. */
  ghost predicate PathTo(t: Tree, p: seq<nat>, d: nat) {
    && |p| >= 1 && p[0] == t.root && p[|p| - 1] == d
    && forall i :: 0 <= i < |p| - 1 ==> Holds(t, p[i], p[i + 1])
  }

  lemma {:induction false} HoldingEntry(t: Tree, d: nat) returns (e: nat, j: nat)
    requires Inv(t) && LiveDir(t, d) && d != t.root
    ensures Ref(t, e, j) == d && LiveDir(t, e) && t.inodes[d].depth == t.inodes[e].depth + 1
  {
    InvGives(t, d);
    NamesAre(t, d);
    hide Names, SubDirs, Entries, Inv;
    assert |Names(t, d)| == 1;
    var n :| n in Names(t, d);
    e, j := n.0, n.1;
    SoundAt(t, e, j);
  }

  lemma {:induction false} ExtendPath(t: Tree, p: seq<nat>, e: nat, j: nat, d: nat)
    requires PathTo(t, p, e) && Ref(t, e, j) == d
    ensures PathTo(t, p + [d], d)
  {
    var q := p + [d];
    assert Holds(t, e, d);
    hide Holds, Ref;
    forall i | 0 <= i < |q| - 1 ensures Holds(t, q[i], q[i + 1])
    {
      if i < |p| - 1 {
        assert Holds(t, p[i], p[i + 1]);
      }
    }
  }

  /** A directory with a link count can be reached from the root. */
  lemma {:induction false} LiveIsReachable(t: Tree, d: nat) returns (p: seq<nat>)
    requires Inv(t) && LiveDir(t, d)
    ensures PathTo(t, p, d)
    decreases t.inodes[d].depth
  {
    if d == t.root {
      return [d];
    }
    hide Inv, PathTo, Ref;
    var e, j := HoldingEntry(t, d);
    var q := LiveIsReachable(t, e);
    ExtendPath(t, q, e, j, d);
    p := q + [d];
  }

  ghost predicate UniqueNames(ents: seq<Entry>) {
    forall i, j :: 0 <= i < j < |ents| && ents[i].inum != 0 && ents[j].inum != 0 ==> ents[i].name != ents[j].name
  }

  /** After any run that adds nothing to an unlinked directory: names in a directory are unique, a
      file's link count is the number of live entries that name it, and a directory in use is
      reachable and counts itself and its subdirectories. */
  lemma {:induction false} LinkCounts(root: nat, run: seq<Op>, t: Tree)
    requires root != 0 && Play(Start(root), run) == Some(t) && Polite(Start(root), run)
    ensures forall i :: i in t.inodes && t.inodes[i].kind != Dir ==> t.inodes[i].nlink == |Names(t, i)|
    ensures forall d :: LiveDir(t, d) ==> t.inodes[d].nlink == 1 + |SubDirs(t, d)| && exists p :: PathTo(t, p, d)
    ensures forall d :: IsDir(t, d) ==> UniqueNames(t.inodes[d].ents)
  {
    hide Play, Polite, Start;
    RunKeeps(root, run);
    hide Names, SubDirs, Ref, Sound;
    assert forall i :: i in t.inodes ==> Counted(t, i);
    forall d | LiveDir(t, d) ensures exists p :: PathTo(t, p, d)
    {
      var p := LiveIsReachable(t, d);
    }
    hide PathTo;
    assert forall d :: d in t.inodes && t.inodes[d].kind == Dir ==> Shaped(d, t.inodes[d].ents);
  }

  // ---- the operations as they run ----

  class Directories {
    var t: Tree

    constructor (root: nat)
      requires root != 0
      ensures t == Start(root) && Inv(t)
    {
      t := Start(root);
      StartIsSound(root);
    }

    method DirLookup(dp: nat, name: string) returns (k: nat)
      requires IsDir(t, dp)
      ensures k == Slot(t, dp, name)
    {
      var ents := t.inodes[dp].ents;
      k := 0;
      while k < |ents|
        invariant k <= |ents| && FirstNamed(ents, name, k) == FirstNamed(ents, name, 0)
      {
        if ents[k].inum != 0 && Trunc(name) == ents[k].name {
          return;
        }
        k := k + 1;
      }
    }

    method DirLink(dp: nat, name: string, i: nat) returns (ok: bool, panicked: bool)
      requires IsDir(t, dp)
      modifies this
      ensures panicked <==> !Found(old(t), dp, name) && NoRoom(old(t), dp)
      ensures ok <==> !Found(old(t), dp, name) && !panicked
      ensures t == if ok then old(t).(inodes := old(t).inodes[dp := Entered(old(t).inodes[dp], name, i)]) else old(t)
    {
      var k := DirLookup(dp, name);
      var p := t.inodes[dp];
      if k < |p.ents| {
        return false, false;
      }
      k := 0;
      while k < |p.ents| && p.ents[k].inum != 0
        invariant k <= |p.ents| && FirstFree(p.ents, k) == FirstFree(p.ents, 0)
      {
        k := k + 1;
      }
      if k >= MAXENTS {
        return false, true;
      }
      t := t.(inodes := t.inodes[dp := p.(ents := Put(p.ents, k, Entry(i, Trunc(name))))]);
      return true, false;
    }

    method IsDirEmpty(d: nat) returns (r: bool)
      requires IsDir(t, d)
      ensures r <==> EmptyDir(t.inodes[d].ents)
    {
      var ents := t.inodes[d].ents;
      var k := 2;
      while k < |ents|
        invariant 2 <= k && forall j :: 2 <= j < k && j < |ents| ==> ents[j].inum == 0
      {
        if ents[k].inum != 0 {
          return false;
        }
        k := k + 1;
      }
      r := true;
    }

    /** Returns the new inode, or an existing file of that name. */
    method Create(dp: nat, name: string, kind: Kind, ino: nat) returns (r: Option<nat>, panicked: bool)
      requires Inv(t) && IsDir(t, dp) && ino !in t.inodes && ino != 0
      modifies this
      ensures panicked <==> !Found(old(t), dp, name) && NoRoom(old(t), dp)
      ensures !panicked ==> Next(old(t), Op.Create(dp, name, kind, ino)) == Some(t)
      ensures !panicked && !AddsToDead(old(t), Op.Create(dp, name, kind, ino)) ==> Inv(t)
      ensures r.Some? && r.value != ino ==>
        t == old(t) && r.value in t.inodes && kind == File && t.inodes[r.value].kind == File
    {
      hide Inv, FirstNamed, FirstFree, Put;
      var k := DirLookup(dp, name);
      if k < |t.inodes[dp].ents| {
        var i := t.inodes[dp].ents[k].inum;
        if kind == File && i in t.inodes && t.inodes[i].kind == File {
          return Some(i), false;
        }
        return None, false;
      }
      ghost var t0 := t;
      var p := t.inodes[dp];
      t := t.(inodes := t.inodes[ino := NewInode(kind, ino, dp, p.depth + 1)]);
      if kind == Dir {
        t := t.(inodes := t.inodes[dp := p.(nlink := p.nlink + 1)]);
      }
      assert t.inodes[dp].ents == p.ents;
      var ok;
      ok, panicked := DirLink(dp, name, ino);
      if panicked {
        return None, true;
      }
      assert t.inodes == Created(t0, dp, name, kind, ino).inodes;
      if LiveDir(t0, dp) {
        CreatedKeeps(t0, dp, name, kind, ino, t);
      }
      r := Some(ino);
    }

    method SysLink(i: nat, dp: nat, name: string) returns (ok: bool, panicked: bool)
      requires Inv(t) && i in t.inodes && t.inodes[i].nlink > 0
      modifies this
      ensures panicked <==>
        old(t).inodes[i].kind != Dir && IsDir(old(t), dp) && !Found(old(t), dp, name) && NoRoom(old(t), dp)
      ensures !panicked ==> Next(old(t), Op.Link(i, dp, name)) == Some(t)
      ensures !panicked && !AddsToDead(old(t), Op.Link(i, dp, name)) ==> Inv(t)
      ensures !ok && !panicked ==> t == old(t)
    {
      hide Inv, FirstNamed, FirstFree, Put;
      var ip := t.inodes[i];
      if ip.kind == Dir {
        return false, false;
      }
      ghost var t0 := t;
      t := t.(inodes := t.inodes[i := ip.(nlink := ip.nlink + 1)]);
      ok, panicked := dp in t.inodes && t.inodes[dp].kind == Dir, false;
      if ok {
        ok, panicked := DirLink(dp, name, i);
      }
      if panicked {
        return;
      }
      if !ok {
        t := t.(inodes := t.inodes[i := ip]);
        assert t.inodes == t0.inodes;
        return;
      }
      assert t.inodes == Linked(t0, i, dp, name).inodes;
      if LiveDir(t0, dp) {
        LinkedKeeps(t0, i, dp, name, t);
      }
    }

    /** A name that is found can always be unlinked unless it is a directory in use. */
    method SysUnlink(dp: nat, name: string) returns (ok: bool)
      requires Inv(t) && IsDir(t, dp)
      modifies this
      ensures Next(old(t), Op.Unlink(dp, name)) == Some(t) && Inv(t)
      ensures !ok ==> t == old(t)
    {
      hide Inv, FirstNamed, Names;
      ghost var t0 := t;
      if Trunc(name) == "." || Trunc(name) == ".." {
        return false;
      }
      var k := DirLookup(dp, name);
      if k == |t.inodes[dp].ents| {
        return false;
      }
      NamedIsSound(t, dp, name, k);
      var p := t.inodes[dp];
      var c := p.ents[k].inum;
      if t.inodes[c].kind == Dir {
        var empty := IsDirEmpty(c);
        if !empty {
          return false;
        }
        p := p.(nlink := p.nlink - 1);
      }
      t := t.(inodes := t.inodes[dp := p.(ents := p.ents[k := Entry(0, "")])]);
      t := t.(inodes := t.inodes[c := t.inodes[c].(nlink := t.inodes[c].nlink - 1)]);
      assert t.inodes == Unlinked(t0, dp, k).inodes;
      UnlinkedKeeps(t0, dp, k, c, t);
      ok := true;
    }
  }

  /** A name that unlink finds is in a live directory and names an inode in use. */
  lemma {:induction false} NamedIsSound(t: Tree, dp: nat, name: string, k: nat)
    requires Inv(t) && IsDir(t, dp) && k == Slot(t, dp, name) < |t.inodes[dp].ents|
    requires Trunc(name) != "." && Trunc(name) != ".."
    ensures LiveDir(t, dp) && k >= 2 && Ref(t, dp, k) == t.inodes[dp].ents[k].inum
    ensures var c := Ref(t, dp, k); c in t.inodes && t.inodes[c].nlink > 0 && c != dp
  {
    InvGives(t, dp);
    hide Inv, Counted, Sound, SubDirs, Names;
    SlotPastDots(t, dp, name, k);
    hide FirstNamed;
    if t.inodes[dp].nlink == 0 {
      DeadEntries(t, dp);
    }
    SoundNamed(t, dp, k);
  }

  lemma {:induction false} SlotPastDots(t: Tree, dp: nat, name: string, k: nat)
    requires Entries(t) && IsDir(t, dp) && k == Slot(t, dp, name) < |t.inodes[dp].ents|
    requires Trunc(name) != "." && Trunc(name) != ".."
    ensures k >= 2 && t.inodes[dp].ents[k].inum != 0
  {
    assert Shaped(dp, t.inodes[dp].ents);
  }

  lemma {:induction false} SoundNamed(t: Tree, dp: nat, k: nat)
    requires Entries(t) && LiveDir(t, dp) && Ref(t, dp, k) != 0
    ensures var c := Ref(t, dp, k); c in t.inodes && t.inodes[c].nlink > 0 && c != dp
  {
    SoundAt(t, dp, k);
    hide Entries;
  }
}
