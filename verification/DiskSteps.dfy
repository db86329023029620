/** What the writes of create, mkdir, rename and rmdir make of a disk, and of the tree it spells. */
module DiskSteps {
  import opened Common
  import opened StaticVectors
  import opened FsTree
  import opened FileFind

  /** The entry for a new file or directory. */
  function NewEntry(name: string, kind: Kind, a: nat, b: nat): Forest {
    Entry(name, kind, a, b, [], [], Nil, Nil)
  }

  ghost predicate IsDirectory(t: Forest, names: Path) {
    At(t, names).Entry? && At(t, names).kind == Directory
  }

  function Join(t: Forest, dir: Path, e: Forest): Forest
    requires At(t, dir).Entry?
  {
    Attach(Root(t), Full(dir), e).kids
  }

  lemma RootJoins(t: Forest, dir: Path, e: Forest)
    requires At(t, dir).Entry?
    ensures Root(Join(t, dir, e)) == Attach(Root(t), Full(dir), e)
  {
  }

  lemma RootRemoves(t: Forest, names: Path)
    requires names != []
    ensures Root(Remove(t, names)) == Remove(Root(t), Full(names))
    ensures At(t, names) == Locate(t, names)
    ensures Parent(Full(names)) == Full(Parent(names)) && Last(Full(names)) == Last(names)
  {
  }

  function Write(disk: Disk, b: nat, v: Block): Disk
    requires b < |disk|
  {
    disk[b := v]
  }

  function Pushes(v: Block, b: nat): Block {
    if v.Inode? then Inode(Pushed(v.index, b, 94)) else v
  }

  lemma ListedIsPushed(d: Forest, b: nat)
    requires d.Entry? && |IndexOf(d)| < 94
    ensures Pushes(Inode(IndexOf(d)), b) == Listed(d, b)
  {
  }

  /** A new entry in blocks a and b, put on the list of another. */
  function AfterNew(disk: Disk, d: Forest, name: string, kind: Kind, a: nat, b: nat): Disk
    requires d.Entry? && a < |disk| && b < |disk| && d.ino < |disk|
  {
    Write(Write(Write(disk, a, File(name, kind, b)), b, Inode([])), d.ino, Pushes(Inode(IndexOf(d)), a))
  }

  ghost predicate TwoFree(disk: Disk, a: nat, b: nat) {
    a < |disk| && b < |disk| && a != b && disk[a] == Free && disk[b] == Free
  }

  /**
   * create and mkdir add exactly one node: the disk then spells the tree with the new entry
   * behind its siblings, so free and used blocks again partition the disk.
   */
  lemma NewEntryJoins(disk: Disk, t: Forest, dir: Path, name: string, kind: Kind, a: nat, b: nat)
    requires FsOk(disk, t) && IsDirectory(t, dir) && !HasName(At(t, dir).kids, name) && TwoFree(disk, a, b)
    ensures At(t, dir).ino < 100
    ensures FsOk(AfterNew(disk, At(t, dir), name, kind, a, b), Join(t, dir, NewEntry(name, kind, a, b)))
    ensures Blocks(Root(Join(t, dir, NewEntry(name, kind, a, b)))) == Blocks(Root(t)) + {a, b}
  {
    hide TreeOk, OnDisk, Attach, Locate;
    var e, d := NewEntry(name, kind, a, b), At(t, dir);
    NewOnDisk(disk, t, name, kind, a, b);
    Joined(Write(Write(disk, a, File(name, kind, b)), b, Inode([])), t, dir, e);
    LocateBlocks(Root(t), Full(dir));
    OwnIno(d);
    ListsNeverFill(disk, t, Full(dir));
    ListedIsPushed(d, a);
  }

  /** The first two writes spell the new entry beside the tree. */
  lemma NewOnDisk(disk: Disk, t: Forest, name: string, kind: Kind, a: nat, b: nat)
    requires FsOk(disk, t) && TwoFree(disk, a, b)
    ensures var disk1 := Write(Write(disk, a, File(name, kind, b)), b, Inode([]));
      |disk1| == 100 && OnDisk(disk1, Root(t)) && OnDisk(disk1, NewEntry(name, kind, a, b))
    ensures TreeOk(NewEntry(name, kind, a, b))
    ensures Blocks(NewEntry(name, kind, a, b)) == {a, b}
  {
    var e := NewEntry(name, kind, a, b);
    BlocksOnDisk(disk, Root(t));
    OneWrite(disk, a, File(name, kind, b), Root(t));
    OneWrite(disk[a := File(name, kind, b)], b, Inode([]), Root(t));
    assert Own(e) == {a, b};
  }

  /** An entry on the disk that joins a directory. */
  lemma Joined(disk: Disk, t: Forest, dir: Path, e: Forest)
    requires |disk| == 100 && OnDisk(disk, Root(t)) && OnDisk(disk, e) && CanJoin(Root(t), Full(dir), e)
    requires forall b: nat :: b < 100 ==> (disk[b] == Free <==> b !in Blocks(Root(t)) + Blocks(e))
    ensures At(t, dir).ino < 100
    ensures FsOk(Write(disk, At(t, dir).ino, Listed(At(t, dir), e.blk)), Join(t, dir, e))
    ensures Blocks(Root(Join(t, dir, e))) == Blocks(Root(t)) + Blocks(e)
  {
    hide TreeOk, Blocks, OnDisk, Attach, Locate;
    RootJoins(t, dir, e);
    AttachOk(Root(t), Full(dir), e);
    AttachOnDisk(disk, Root(t), Full(dir), e);
  }

  /** What find sees afterwards: the new name, nothing below it, and everything else as before. */
  lemma FindAfterNew(t: Forest, dir: Path, name: string, kind: Kind, a: nat, b: nat, p: Path, x: nat)
    requires IsDirectory(t, dir) && !HasName(At(t, dir).kids, name)
    requires TreeOk(Root(t)) && TreeOk(Root(Join(t, dir, NewEntry(name, kind, a, b))))
    ensures var u := Join(t, dir, NewEntry(name, kind, a, b));
      && FindPath(u, dir + [name]) == Found(a)
      && (!Under(dir + [name], p) ==> (FindPath(u, p) == Found(x) <==> FindPath(t, p) == Found(x)))
      && (Under(dir + [name], p) && p != dir + [name] ==> FindPath(u, p) != Found(x))
  {
    hide TreeOk, Join, At, Under, Attach, FindPath;
    var e, names := NewEntry(name, kind, a, b), dir + [name];
    var u := Join(t, dir, e);
    RootJoins(t, dir, e);
    assert Full(names) == Full(dir) + [name];
    FullUnder(names, names);
    FullUnder(names, p);
    AtDir(t, dir);
    LookupAttach(Root(t), Full(dir), e, Full(names));
    LookupAttach(Root(t), Full(dir), e, Full(p));
    SelfUnder(Full(names), []);
    assert Full(names) + [] == Full(names);
    assert Full(names)[|Full(dir)|..] == [name];
    FindRefinesLookup(u, names, a);
    FindRefinesLookup(u, p, x);
    FindRefinesLookup(t, p, x);
    assert Lookup(e, [name]) == Some(Node(kind, a, b, []));
    if Under(names, p) && p != names {
      BelowNew(e, Full(names), Full(p), |Full(dir)|);
    }
  }

  lemma AtDir(t: Forest, dir: Path)
    ensures At(t, dir) == Locate(Root(t), Full(dir))
  {
  }

  lemma BelowNew(e: Forest, names: Path, p: Path, k: nat)
    requires e.Entry? && e.kids == Nil && e.rest == Nil && Under(names, p) && p != names && |names| == k + 1
    ensures Lookup(e, p[k..]) == None
  {
    assert |p| == |names| ==> p == names;
    var s := p[k..];
    assert |s| > 1;
    assert Locate(e.kids, s[1..]) == Nil && Locate(e.rest, s) == Nil;
  }

  lemma FullUnder(a: Path, b: Path)
    ensures Under(Full(a), Full(b)) <==> Under(a, b)
  {
    UnderStep(Full(a), Full(b));
  }

  /** What find sees after a removal: nothing at the path or below, and everything else as before. */
  lemma FindAfterRemoval(t: Forest, names: Path, p: Path, x: nat)
    requires TreeOk(Root(t)) && names != []
    ensures FindPath(Remove(t, names), p) == Found(x) <==> !Under(names, p) && FindPath(t, p) == Found(x)
  {
    hide TreeOk, Remove, FindPath, Under;
    RootRemoves(t, names);
    RemoveTreeOk(Root(t), Full(names));
    LookupRemove(Root(t), Full(names), Full(p));
    FullUnder(names, p);
    FindRefinesLookup(Remove(t, names), p, x);
    FindRefinesLookup(t, p, x);
  }

  // ---------- removal ----------

  /** The blocks of the entry that names lead to, and of everything below it. */
  ghost function SubtreeBlocks(t: Forest, names: Path): set<nat>
    requires At(t, names).Entry?
  {
    Blocks(Alone(At(t, names), Last(Full(names))))
  }

  /** rmdir: the blocks of the subtree are free, and its name is off the parent's list. */
  ghost function AfterRemoval(disk: Disk, t: Forest, names: Path): Disk
    requires At(t, names).Entry? && At(t, Up(names)).Entry?
  {
    var gone, p := SubtreeBlocks(t, names), At(t, Up(names));
    seq(|disk|, b requires 0 <= b < |disk| =>
      if b == p.ino then Unlisted(p, At(t, names).blk)
      else if b in gone then Free
      else disk[b])
  }

  /** rmdir of the root frees its file block and, last of all, writes its inode once more. */
  lemma RemovalOfRoot(disk: Disk, t: Forest, u: Forest)
    requires FsOk(disk, t)
    ensures At(t, []).Entry? && !FsOk(AfterRemoval(disk, t, []), u)
  {
    hide Locate, TreeOk;
    RootEntry(t);
    RootIsIn(t);
    assert AfterRemoval(disk, t, [])[0] == Free;
  }

  lemma RootIsIn(t: Forest)
    ensures At(t, []).Entry? && 0 in SubtreeBlocks(t, []) && At(t, []).ino == 1
  {
    RootEntry(t);
    assert 0 in Own(Root(t));
  }

  lemma ParentOf(t: Forest, names: Path)
    requires TreeOk(Root(t)) && names != [] && At(t, names).Entry?
    ensures IsDirectory(t, Parent(names))
    ensures At(t, Parent(names)).ino in Blocks(Root(t)) && At(t, Parent(names)).ino !in SubtreeBlocks(t, names)
    ensures SubtreeBlocks(t, names) <= Blocks(Root(t))
    ensures At(t, names).blk in SubtreeBlocks(t, names)
  {
    RootRemoves(t, names);
    LocateParent(Root(t), Full(names));
    var p := At(t, Parent(names));
    LocateBlocks(Root(t), Full(Parent(names)));
    LocateBlocks(Root(t), Full(names));
    LocateBlocks(p.kids, [Last(names)]);
    OwnIno(p);
    assert At(t, names).blk in Own(At(t, names));
  }

  /** Every file of the subtree is gone and nothing else is, on the disk as in the tree. */
  lemma RemovalFreesSubtree(disk: Disk, t: Forest, names: Path)
    requires FsOk(disk, t) && names != [] && At(t, names).Entry?
    ensures At(t, Parent(names)).Entry?
    ensures FsOk(AfterRemoval(disk, t, names), Remove(t, names))
    ensures Blocks(Root(Remove(t, names))) == Blocks(Root(t)) - SubtreeBlocks(t, names)
  {
    hide TreeOk, OnDisk, Locate, Blocks, Remove;
    RootRemoves(t, names);
    ParentOf(t, names);
    var r, p := Remove(Root(t), Full(names)), At(t, Parent(names));
    RemoveTreeOk(Root(t), Full(names));
    BlocksRemove(Root(t), Full(names));
    RemoveOnDisk(disk, Root(t), Full(names));
    var struck := disk[p.ino := Unlisted(p, At(t, names).blk)];
    var disk' := AfterRemoval(disk, t, names);
    BlocksOnDisk(struck, r);
    assert forall b :: b in Blocks(r) ==> disk'[b] == struck[b];
    OnDiskFrame(struck, disk', r);
  }

  lemma NewThenRemoved(t: Forest, dir: Path, e: Forest)
    requires TreeOk(Root(t)) && IsDirectory(t, dir) && e.Entry? && e.rest == Nil && !HasName(At(t, dir).kids, e.name)
    ensures var t', names := Join(t, dir, e), dir + [e.name];
      && Remove(t', names) == t && At(t', names) == e
      && At(t', Parent(names)).Entry? && At(t', Parent(names)).ino == At(t, dir).ino
      && At(t', Parent(names)).kids == Append(At(t, dir).kids, e)
      && SubtreeBlocks(t', names) == Blocks(e)
  {
    hide TreeOk, Attach, Remove, Locate, Blocks;
    var names := dir + [e.name];
    assert Parent(names) == dir;
    assert Full(dir) + [e.name] == Full(names);
    RootJoins(t, dir, e);
    RemoveUndoesAttach(Root(t), Full(dir), e);
    RootRemoves(Join(t, dir, e), names);
    DirAfterAttach(Root(t), Full(dir), e);
    assert Alone(e, e.name) == e;
  }

  /** mkdir and then rmdir restores the tree and every one of the 100 blocks. */
  lemma RemovalUndoesNew(disk: Disk, t: Forest, dir: Path, name: string, kind: Kind, a: nat, b: nat)
    requires FsOk(disk, t) && IsDirectory(t, dir) && !HasName(At(t, dir).kids, name) && TwoFree(disk, a, b)
    ensures var t' := Join(t, dir, NewEntry(name, kind, a, b));
      var names := dir + [name];
      && Remove(t', names) == t && At(t', names) == NewEntry(name, kind, a, b) && At(t', Parent(names)).Entry?
      && At(t, dir).ino < 100
      && AfterRemoval(AfterNew(disk, At(t, dir), name, kind, a, b), t', names) == disk
  {
    hide TreeOk, OnDisk, Attach, Remove, Locate, Blocks, Join, At, SubtreeBlocks, Files;
    var e, d, names := NewEntry(name, kind, a, b), At(t, dir), dir + [name];
    NewThenRemoved(t, dir, e);
    NewEntryJoins(disk, t, dir, name, kind, a, b);
    EntryBlocks(name, kind, a, b);
    DirectoryOn(disk, t, dir);
    NewlyListed(disk, t, d, a);
    assert Up(names) == Parent(names);
    BlocksRestored(disk, AfterNew(disk, d, name, kind, a, b), Join(t, dir, e), names, b);
  }

  /** A removal of two blocks restores a disk that differed at them and at the parent's inode only. */
  lemma BlocksRestored(disk: Disk, disk1: Disk, t: Forest, names: Path, b: nat)
    requires At(t, names).Entry? && At(t, Up(names)).Entry? && |disk1| == |disk|
    requires var a, p := At(t, names).blk, At(t, Up(names));
      && SubtreeBlocks(t, names) == {a, b} && a < |disk| && b < |disk| && disk[a] == disk[b] == Free
      && p.ino < |disk| && disk[p.ino] == Unlisted(p, a)
      && forall i :: 0 <= i < |disk| && i != a && i != b && i != p.ino ==> disk1[i] == disk[i]
    ensures AfterRemoval(disk1, t, names) == disk
  {
    hide At, SubtreeBlocks, Unlisted, Up;
    var disk' := AfterRemoval(disk1, t, names);
    assert forall i :: 0 <= i < |disk| ==> disk'[i] == disk[i];
  }

  lemma EntryBlocks(name: string, kind: Kind, a: nat, b: nat)
    ensures Blocks(NewEntry(name, kind, a, b)) == {a, b}
  {
    assert Own(NewEntry(name, kind, a, b)) == {a, b};
  }

  lemma DirectoryOn(disk: Disk, t: Forest, dir: Path)
    requires FsOk(disk, t) && IsDirectory(t, dir)
    ensures var d := At(t, dir);
      && OnDisk(disk, Root(t)) && OnDisk(disk, d.kids) && d.ino < |disk| && disk[d.ino] == Inode(Files(d.kids))
      && d.blk < |disk| && disk[d.blk] == File(d.name, Directory, d.ino)
  {
    LocateOnDisk(disk, Root(t), Full(dir));
  }

  /** The directory itself keeps its blocks, with the new entry behind its children. */
  lemma {:induction false} DirAfterAttach(f: Forest, dir: Path, e: Forest)
    requires dir != [] && Locate(f, dir).Entry? && e.Entry?
    ensures var d, d' := Locate(f, dir), Locate(Attach(f, dir, e), dir);
      d'.Entry? && d'.ino == d.ino && d'.kids == Append(d.kids, e)
    decreases f
  {
    if f.name != dir[0] {
      DirAfterAttach(f.rest, dir, e);
    } else if |dir| > 1 {
      DirAfterAttach(f.kids, dir[1..], e);
    }
  }

  lemma {:induction false} FilesAppend(f: Forest, e: Forest)
    requires e.Entry? && e.rest == Nil
    ensures Files(Append(f, e)) == Files(f) + [e.blk]
  {
    if f.Entry? {
      FilesAppend(f.rest, e);
    }
  }

  lemma {:induction false} PositionAtEnd(s: seq<nat>, x: nat)
    requires x !in s
    ensures Position(s + [x], x) == |s|
  {
    if s != [] {
      assert (s + [x])[1..] == s[1..] + [x];
      PositionAtEnd(s[1..], x);
    }
  }

  lemma NewlyListed(disk: Disk, t: Forest, d: Forest, a: nat)
    requires OnDisk(disk, Root(t)) && a < |disk| && disk[a] == Free
    requires d.Entry? && OnDisk(disk, d.kids)
    ensures forall e: Forest :: e.Entry? && e.rest == Nil && e.blk == a ==>
      Erased(Files(Append(d.kids, e)), Position(Files(Append(d.kids, e)), a)) == Files(d.kids)
  {
    BlocksOnDisk(disk, d.kids);
    FilesInBlocks(d.kids);
    PositionAtEnd(Files(d.kids), a);
    forall e: Forest | e.Entry? && e.rest == Nil && e.blk == a
      ensures Erased(Files(Append(d.kids, e)), Position(Files(Append(d.kids, e)), a)) == Files(d.kids)
    {
      FilesAppend(d.kids, e);
    }
  }

  // ---------- rename ----------

  /**
   * rename does not test whether it found the new parent.  If not, it takes sector -1 for the
   * parent's file block, and writes the inode that this names: some sector, with some content.
   */
  datatype Stray = Stray(sector: int, content: Block)

  /** The first two writes of rename: the old parent's list and the name. */
  function Unplaced(disk: Disk, t: Forest, from: Path, to: Path): (disk2: Disk)
    requires to != [] && At(t, from).Entry? && At(t, Up(from)).Entry?
    requires At(t, from).blk < |disk| && At(t, Up(from)).ino < |disk|
    ensures |disk2| == |disk|
  {
    var e, p := At(t, from), At(t, Up(from));
    Write(Write(disk, p.ino, Unlisted(p, e.blk)), e.blk, File(Last(to), e.kind, e.ino))
  }

  /** All three, the last one to the new parent's list. */
  function AfterRename(disk: Disk, t: Forest, from: Path, to: Path, stray: Stray): Disk
    requires to != [] && At(t, from).Entry? && At(t, Up(from)).Entry?
    requires At(t, from).blk < |disk| && At(t, Up(from)).ino < |disk|
    requires At(t, Parent(to)).Entry? ==> At(t, Parent(to)).ino < |disk|
  {
    var e, q := At(t, from), At(t, Parent(to));
    var disk2 := Unplaced(disk, t, from, to);
    if q.Entry? then Write(disk2, q.ino, Pushes(disk2[q.ino], e.blk))
    else if 0 <= stray.sector < |disk2| then Write(disk2, stray.sector, stray.content)
    else disk2
  }

  /** The situation in which rename writes: the old path is there and the new one is not. */
  ghost predicate Renames(disk: Disk, t: Forest, from: Path, to: Path) {
    FsOk(disk, t) && to != [] && At(t, from).Entry? && At(t, to).Nil?
  }

  ghost predicate SpellsTree(disk: Disk) {
    exists u :: FsOk(disk, u)
  }

  lemma RenameBlocks(disk: Disk, t: Forest, from: Path, to: Path)
    requires Renames(disk, t, from, to)
    ensures At(t, Up(from)).Entry?
    ensures var e, p, q := At(t, from), At(t, Up(from)), At(t, Parent(to));
      && e.blk < 100 && p.ino < 100
      && disk[e.blk] == File(e.name, e.kind, e.ino) && disk[p.ino] == Inode(Files(p.kids)) && |Files(p.kids)| <= 50
      && (q.Entry? ==>
            && q.ino < 100 && q.blk < 100 && (q.kind == Directory ==> |IndexOf(q)| <= 50)
            && disk[q.blk] == File(q.name, q.kind, q.ino) && disk[q.ino] == Inode(IndexOf(q)))
  {
    hide TreeOk, Locate, Blocks;
    if from == [] {
      RootEntry(t);
    } else {
      ParentOf(t, from);
    }
    LocateOnDisk(disk, Root(t), Full(from));
    LocateOnDisk(disk, Root(t), Full(Up(from)));
    ListsNeverFill(disk, t, Full(Up(from)));
    if At(t, Parent(to)).Entry? {
      LocateOnDisk(disk, Root(t), Full(Parent(to)));
      ListsNeverFill(disk, t, Full(Parent(to)));
    }
  }

  function MovedTree(t: Forest, from: Path, to: Path): Forest
    requires from != [] && to != [] && At(t, from).Entry?
  {
    Moved(Root(t), Full(from), Full(to)).kids
  }

  /** The rename is sound: not of the root, and into a directory that does not move along. */
  predicate Sound(t: Forest, from: Path, to: Path)
    requires to != []
  {
    from != [] && At(t, Parent(to)).Entry? && At(t, Parent(to)).kind == Directory && !Under(from, Parent(to))
  }

  lemma SoundNotRoot(t: Forest, from: Path, to: Path)
    requires to != [] && Sound(t, from, to)
    ensures from != [] && At(t, Parent(to)).Entry?
  {
  }

  lemma SoundIsMoveOk(t: Forest, from: Path, to: Path)
    requires from != [] && to != [] && At(t, from).Entry? && At(t, to).Nil? && Sound(t, from, to)
    ensures MoveOk(Root(t), Full(from), Full(to))
  {
    RootRemoves(t, to);
    FullUnder(from, Parent(to));
  }

  /** The entry leaves the tree: what remains is on the disk, and so is the renamed entry by itself. */
  lemma Detached(disk: Disk, t: Forest, from: Path, name: string)
    requires FsOk(disk, t) && from != [] && At(t, from).Entry? && At(t, Parent(from)).Entry?
    requires At(t, from).blk < 100 && At(t, Parent(from)).ino < 100
    ensures var e, p := At(t, from), At(t, Parent(from));
      var r, x := Remove(Root(t), Full(from)), Alone(e, name);
      var disk2 := Write(Write(disk, p.ino, Unlisted(p, e.blk)), e.blk, File(name, e.kind, e.ino));
      && OnDisk(disk2, r) && OnDisk(disk2, x)
      && TreeOk(r) && TreeOk(x) && Blocks(r) !! Blocks(x) && Blocks(r) + Blocks(x) == Blocks(Root(t))
      && Blocks(x) == SubtreeBlocks(t, from) && p.ino in Blocks(r) && e.blk in Blocks(x)
      && forall b: nat :: b < 100 ==> (disk2[b] == Free <==> disk[b] == Free)
  {
    hide TreeOk, Blocks, Locate, Remove, OnDisk;
    var e, p := At(t, from), At(t, Parent(from));
    RootRemoves(t, from);
    ParentOf(t, from);
    RemoveTreeOk(Root(t), Full(from));
    BlocksRemove(Root(t), Full(from));
    RemoveOnDisk(disk, Root(t), Full(from));
    var r := Remove(Root(t), Full(from));
    LocateBlocks(Root(t), Full(from));
    LocateOnDisk(disk, Root(t), Full(from));
    BlocksOnDisk(disk, Root(t));
    AloneRenamed(disk, e, Last(from), name);
    OneWrite(Write(disk, p.ino, Unlisted(p, e.blk)), e.blk, File(name, e.kind, e.ino), r);
    WritesCommute(disk, p.ino, Unlisted(p, e.blk), e.blk, File(name, e.kind, e.ino));
    OneWrite(Write(disk, e.blk, File(name, e.kind, e.ino)), p.ino, Unlisted(p, e.blk), Alone(e, name));
  }

  lemma WritesCommute(disk: Disk, a: nat, v: Block, b: nat, w: Block)
    requires a < |disk| && b < |disk| && a != b
    ensures Write(Write(disk, a, v), b, w) == Write(Write(disk, b, w), a, v)
  {
  }

  lemma AloneRenamed(disk: Disk, e: Forest, was: string, name: string)
    requires e.Entry? && EntryOn(disk, e) && OnDisk(disk, e.kids) && TreeOk(Alone(e, was))
    ensures OnDisk(Write(disk, e.blk, File(name, e.kind, e.ino)), Alone(e, name))
    ensures TreeOk(Alone(e, name)) && Blocks(Alone(e, name)) == Blocks(Alone(e, was))
  {
    OneWrite(disk, e.blk, File(name, e.kind, e.ino), e.kids);
  }

  /** A sound rename leaves a disk that spells the moved tree, in the same blocks. */
  lemma RenameMovesTree(disk: Disk, t: Forest, from: Path, to: Path, stray: Stray)
    requires Renames(disk, t, from, to) && Sound(t, from, to)
    ensures At(t, Up(from)).Entry? && At(t, from).blk < 100
    ensures At(t, Up(from)).ino < 100 && At(t, Parent(to)).ino < 100
    ensures FsOk(AfterRename(disk, t, from, to, stray), MovedTree(t, from, to))
    ensures Blocks(Root(MovedTree(t, from, to))) == Blocks(Root(t))
  {
    hide TreeOk, Blocks, Remove, Locate, OnDisk, Attach, Files;
    RenameBlocks(disk, t, from, to);
    Detached(disk, t, from, Last(to));
    var e, p, q := At(t, from), At(t, Up(from)), At(t, Parent(to));
    var disk2 := Unplaced(disk, t, from, to);
    var u, x := Remove(t, from), Alone(e, Last(to));
    RootRemoves(t, from);
    StillThere(t, from, to);
    Joined(disk2, u, Parent(to), x);
    RootRemoves(t, to);
    RootJoins(u, Parent(to), x);
    LocateOnDisk(disk2, Root(u), Full(Parent(to)));
    RemovalShortens(p, e.blk);
  }

  lemma SoundIgnoresStray(disk: Disk, t: Forest, from: Path, to: Path, stray: Stray)
    requires Renames(disk, t, from, to) && Sound(t, from, to)
    ensures At(t, Up(from)).Entry? && At(t, from).blk < 100
    ensures At(t, Up(from)).ino < 100 && At(t, Parent(to)).ino < 100
    ensures AfterRename(disk, t, from, to, stray) == AfterRename(disk, t, from, to, Stray(-1, Free))
  {
    RenameBlocks(disk, t, from, to);
  }

  lemma RemovalShortens(p: Forest, b: nat)
    requires p.Entry?
    ensures |Unlisted(p, b).index| <= |Files(p.kids)|
  {
  }

  /** The new parent is not moved by the removal, and still lacks the new name. */
  lemma StillThere(t: Forest, from: Path, to: Path)
    requires TreeOk(Root(t)) && from != [] && to != [] && At(t, from).Entry? && At(t, to).Nil? && Sound(t, from, to)
    ensures var q, q' := At(t, Parent(to)), At(Remove(t, from), Parent(to));
      q'.Entry? && q'.kind == Directory && q'.ino == q.ino && !HasName(q'.kids, Last(to))
  {
    hide TreeOk, Remove, Locate;
    var dir := Parent(to);
    RootRemoves(t, from);
    RootRemoves(t, to);
    FullUnder(from, dir);
    LookupRemove(Root(t), Full(from), Full(dir));
    LocateRemove(Root(t), Full(from), Full(dir), Last(to));
    LocateParent(Root(t), Full(to));
    ChildNamed(At(t, dir).kids, Last(to));
  }

  /**
   * What find sees after a sound rename: to + s is found where from + s was, from and all
   * below it is not found, and every path outside both is found where it was.
   */
  lemma FindAfterRename(disk: Disk, t: Forest, from: Path, to: Path, s: Path, names: Path, b: nat)
    requires Renames(disk, t, from, to) && Sound(t, from, to)
    ensures FindPath(MovedTree(t, from, to), to + s) == Found(b) <==> FindPath(t, from + s) == Found(b)
    ensures FindPath(MovedTree(t, from, to), from + s) != Found(b)
    ensures !Under(from, names) && !Under(to, names) ==>
      (FindPath(MovedTree(t, from, to), names) == Found(b) <==> FindPath(t, names) == Found(b))
  {
    hide TreeOk, OnDisk, Blocks, AfterRename, FindPath, Under, Locate, Attach, Remove;
    RenameMovesTree(disk, t, from, to, Stray(-1, Free));
    SoundIsMoveOk(t, from, to);
    var u := MovedTree(t, from, to);
    RootMoves(t, from, to);
    FindRefinesLookup(u, to + s, b);
    FindRefinesLookup(t, from + s, b);
    FindRefinesLookup(u, from + s, b);
    FindRefinesLookup(u, names, b);
    FindRefinesLookup(t, names, b);
    assert Full(to + s) == Full(to) + s && Full(from + s) == Full(from) + s;
    FullUnder(from, names);
    FullUnder(to, names);
    RenameReRoots(Root(t), Full(from), Full(to), s, Full(names));
  }

  lemma RootMoves(t: Forest, from: Path, to: Path)
    requires from != [] && to != [] && At(t, from).Entry? && At(t, to).Nil? && Sound(t, from, to)
    requires TreeOk(Root(t))
    ensures Root(MovedTree(t, from, to)) == Moved(Root(t), Full(from), Full(to))
  {
    StillThere(t, from, to);
    RootRemoves(t, from);
    RootRemoves(t, to);
    RootJoins(Remove(t, from), Parent(to), Alone(At(t, from), Last(to)));
  }

  /** On a disk that spells a tree, the inode of a regular file lists data blocks only. */
  lemma {:induction false} RegularListsData(disk: Disk, f: Forest, b: nat)
    requires OnDisk(disk, f) && b in Blocks(f) && b < |disk| && disk[b].File? && disk[b].kind == Regular
    ensures var i := disk[b].inode;
      i < |disk| && disk[i].Inode? && forall d :: d in disk[i].index ==> d < |disk| && disk[d].Data?
  {
    if b in Blocks(f.kids) {
      RegularListsData(disk, f.kids, b);
    } else if b in Blocks(f.rest) {
      RegularListsData(disk, f.rest, b);
    }
  }

  /** With its entry nowhere, the disk spells no tree: the block is in use and not listed. */
  lemma UnplacedIsLost(disk: Disk, t: Forest, from: Path, to: Path, u: Forest)
    requires Renames(disk, t, from, to) && from != []
    ensures At(t, Up(from)).Entry? && At(t, from).blk < 100 && At(t, Up(from)).ino < 100
    ensures !FsOk(Unplaced(disk, t, from, to), u)
  {
    hide TreeOk, Blocks, Locate, Files, Remove;
    RenameBlocks(disk, t, from, to);
    Detached(disk, t, from, Last(to));
    RootRemoves(t, from);
    var disk2 := Unplaced(disk, t, from, to);
    if FsOk(disk2, u) {
      SameRoot(disk2, Remove(t, from), u);
    }
  }

  /** A rename into a file leaves a disk that spells no tree. */
  lemma RenameIntoFile(disk: Disk, t: Forest, from: Path, to: Path, stray: Stray, u: Forest)
    requires Renames(disk, t, from, to) && from != []
    requires At(t, Parent(to)).Entry? && At(t, Parent(to)).kind == Regular
    ensures At(t, Up(from)).Entry? && At(t, from).blk < 100
    ensures At(t, Up(from)).ino < 100 && At(t, Parent(to)).ino < 100
    ensures !FsOk(AfterRename(disk, t, from, to, stray), u)
  {
    hide TreeOk, Blocks, Locate, OnDisk, Files;
    RenameBlocks(disk, t, from, to);
    var e, p, q := At(t, from), At(t, Up(from)), At(t, Parent(to));
    var disk2, disk3 := Unplaced(disk, t, from, to), AfterRename(disk, t, from, to, stray);
    RemovalShortens(p, e.blk);
    assert disk2[q.ino].Inode?;
    if |disk2[q.ino].index| < 94 {
      assert e.blk in disk3[q.ino].index && disk3[e.blk].File?;
      assert disk3[q.blk] == File(disk3[q.blk].name, Regular, q.ino);
      if FsOk(disk3, u) {
        RegularListsData(disk3, Root(u), q.blk);
      }
    } else {
      assert disk3 == disk2;
      UnplacedIsLost(disk, t, from, to, u);
    }
  }

  /** A rename of the root changes the name in block 0, which is that of the root no longer. */
  lemma RenameOfRoot(disk: Disk, t: Forest, to: Path, stray: Stray, u: Forest)
    requires Renames(disk, t, [], to) && Last(to) != SLASH && (At(t, Parent(to)).Entry? || stray == Stray(-1, Free))
    ensures At(t, []).Entry? && At(t, []).blk < 100 && At(t, []).ino < 100
    ensures At(t, Parent(to)).Entry? ==> At(t, Parent(to)).ino < 100
    ensures !FsOk(AfterRename(disk, t, [], to, stray), u)
  {
    hide TreeOk, Blocks, Locate, Files;
    RenameBlocks(disk, t, [], to);
    RootEntry(t);
    assert AfterRename(disk, t, [], to, stray)[0] == File(Last(to), Directory, 1);
  }

  lemma InsideSubtree(t: Forest, from: Path, dir: Path)
    requires TreeOk(Root(t)) && from != [] && At(t, from).Entry? && At(t, dir).Entry? && Under(from, dir)
    ensures At(t, dir).ino in SubtreeBlocks(t, from)
  {
    var e, d := At(t, from), At(t, dir);
    LocateBlocks(Root(t), Full(from));
    OwnIno(d);
    if |dir| == |from| {
      assert dir == from;
    } else {
      var s := dir[|from|..];
      assert Full(dir) == Full(from) + s;
      LocateStep(Root(t), Full(from), s);
      LocateBlocks(e.kids, s);
    }
  }

  /** A rename into the moved subtree cuts it off: its blocks are in use and in no tree. */
  lemma RenameIntoItself(disk: Disk, t: Forest, from: Path, to: Path, stray: Stray, u: Forest)
    requires Renames(disk, t, from, to) && from != [] && At(t, Parent(to)).Entry? && Under(from, Parent(to))
    ensures At(t, Up(from)).Entry? && At(t, from).blk < 100
    ensures At(t, Up(from)).ino < 100 && At(t, Parent(to)).ino < 100
    ensures !FsOk(AfterRename(disk, t, from, to, stray), u)
  {
    hide TreeOk, Blocks, Locate, Files, Remove;
    RenameBlocks(disk, t, from, to);
    Detached(disk, t, from, Last(to));
    InsideSubtree(t, from, Parent(to));
    RootRemoves(t, from);
    var e, p, q := At(t, from), At(t, Up(from)), At(t, Parent(to));
    var disk2 := Unplaced(disk, t, from, to);
    var disk3 := AfterRename(disk, t, from, to, stray);
    OneWrite(disk2, q.ino, Pushes(disk2[q.ino], e.blk), Root(Remove(t, from)));
    if FsOk(disk3, u) {
      SameRoot(disk3, Remove(t, from), u);
    }
  }

  lemma SameRoot(disk: Disk, t: Forest, u: Forest)
    requires OnDisk(disk, Root(t)) && OnDisk(disk, Root(u)) && TreeOk(Root(t)) && TreeOk(Root(u))
    ensures t == u
  {
    OneForest(disk, t, u);
  }

  /** A rename below a directory that does not exist loses the old entry, even if the stray write does no harm. */
  lemma RenameIntoNowhere(disk: Disk, t: Forest, from: Path, to: Path, u: Forest)
    requires Renames(disk, t, from, to) && from != [] && At(t, Parent(to)).Nil?
    ensures At(t, Up(from)).Entry? && At(t, from).blk < 100 && At(t, Up(from)).ino < 100
    ensures !FsOk(AfterRename(disk, t, from, to, Stray(-1, Free)), u)
  {
    UnplacedIsLost(disk, t, from, to, u);
  }

  /**
   * Whenever rename writes, the disk is sure to spell a tree afterwards, whatever a stray write
   * does, if and only if the new parent exists, is a directory, and is not under the old path.
   */
  lemma RenameKeepsTreeIffSound(disk: Disk, t: Forest, from: Path, to: Path)
    requires Renames(disk, t, from, to) && Last(to) != SLASH
    ensures At(t, Up(from)).Entry? && At(t, from).blk < 100 && At(t, Up(from)).ino < 100
    ensures At(t, Parent(to)).Entry? ==> At(t, Parent(to)).ino < 100
    ensures (forall stray :: SpellsTree(AfterRename(disk, t, from, to, stray))) <==> Sound(t, from, to)
    ensures At(t, Parent(to)).Entry? && !Sound(t, from, to) ==>
      forall stray :: !SpellsTree(AfterRename(disk, t, from, to, stray))
    ensures !Sound(t, from, to) ==> !SpellsTree(AfterRename(disk, t, from, to, Stray(-1, Free)))
  {
    hide TreeOk, OnDisk, Blocks, AfterRename, At;
    RenameBlocks(disk, t, from, to);
    if Sound(t, from, to) {
      forall stray ensures SpellsTree(AfterRename(disk, t, from, to, stray)) {
        RenameMovesTree(disk, t, from, to, stray);
      }
    } else {
      RenameBreaksTree(disk, t, from, to, Stray(-1, Free));
      if At(t, Parent(to)).Entry? {
        forall stray ensures !SpellsTree(AfterRename(disk, t, from, to, stray)) {
          RenameBreaksTree(disk, t, from, to, stray);
        }
      }
    }
  }

  lemma RenameBreaksTree(disk: Disk, t: Forest, from: Path, to: Path, stray: Stray)
    requires Renames(disk, t, from, to) && Last(to) != SLASH && !Sound(t, from, to)
    requires At(t, Parent(to)).Entry? || stray == Stray(-1, Free)
    ensures At(t, Up(from)).Entry? && At(t, from).blk < 100 && At(t, Up(from)).ino < 100
    ensures At(t, Parent(to)).Entry? ==> At(t, Parent(to)).ino < 100
    ensures !SpellsTree(AfterRename(disk, t, from, to, stray))
  {
    hide TreeOk, OnDisk, Blocks, AfterRename, At;
    RenameBlocks(disk, t, from, to);
    forall u ensures !FsOk(AfterRename(disk, t, from, to, stray), u) {
      if from == [] {
        RenameOfRoot(disk, t, to, stray, u);
      } else if At(t, Parent(to)).Nil? {
        RenameIntoNowhere(disk, t, from, to, u);
      } else if At(t, Parent(to)).kind == Regular {
        RenameIntoFile(disk, t, from, to, stray, u);
      } else {
        RenameIntoItself(disk, t, from, to, stray, u);
      }
    }
  }

  /** mkdir does not ask whether the parent is a directory; in a file it leaves no tree. */
  lemma NewInFile(disk: Disk, t: Forest, dir: Path, name: string, kind: Kind, a: nat, b: nat, u: Forest)
    requires FsOk(disk, t) && TwoFree(disk, a, b) && At(t, dir).Entry? && At(t, dir).kind == Regular
    ensures At(t, dir).ino < 100
    ensures !FsOk(AfterNew(disk, At(t, dir), name, kind, a, b), u)
  {
    hide TreeOk, Blocks, Locate, Files;
    var d := At(t, dir);
    LocateOnDisk(disk, Root(t), Full(dir));
    var disk' := AfterNew(disk, d, name, kind, a, b);
    if |IndexOf(d)| < 94 {
      assert a in disk'[d.ino].index && disk'[a].File? && disk'[d.blk] == File(d.name, Regular, d.ino);
      if FsOk(disk', u) {
        RegularListsData(disk', Root(u), d.blk);
      }
    } else {
      NotListed(disk, t, d, name, kind, a, b, u);
    }
  }

  /** A list that is full drops the new entry, whose blocks are then in use and in no tree. */
  lemma NotListed(disk: Disk, t: Forest, d: Forest, name: string, kind: Kind, a: nat, b: nat, u: Forest)
    requires FsOk(disk, t) && TwoFree(disk, a, b) && d.Entry? && d.ino < 100 && disk[d.ino] == Inode(IndexOf(d))
    requires |IndexOf(d)| >= 94
    ensures !FsOk(AfterNew(disk, d, name, kind, a, b), u)
  {
    hide TreeOk, Blocks;
    var disk1 := Write(disk, a, File(name, kind, b));
    var disk2 := Write(disk1, b, Inode([]));
    assert AfterNew(disk, d, name, kind, a, b) == disk2;
    OneWrite(disk, a, File(name, kind, b), Root(t));
    OneWrite(disk1, b, Inode([]), Root(t));
    if FsOk(disk2, u) {
      SameRoot(disk2, t, u);
    }
  }
}
