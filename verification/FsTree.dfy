/**
 * The directory tree that the blocks of the disk spell (include/file_t.h): a file block names
 * an inode block, and the inode lists the file blocks of a directory or the data blocks of a file.
 */
module FsTree {
  import opened Common
  import opened StaticVectors
  import opened LeastNumber

  datatype Kind = Regular | Directory

  datatype Block =
    | Free
    | Data(bytes: string)
    | Inode(index: seq<nat>)
    | File(name: string, kind: Kind, inode: nat)

  type Disk = seq<Block>

  function ByteAt(bytes: string, i: nat): nat {
    if i < |bytes| then bytes[i] as nat % 256 else 0
  }

  /**
   * The name that the bytes of a data block spell when the block is taken for a file block: its
   * characters follow four bytes of inode number and one of type, and its length follows them.
   */
  function NameIn(bytes: string): string {
    var length := ByteAt(bytes, 26) + 0x100 * ByteAt(bytes, 27) + 0x1_0000 * ByteAt(bytes, 28)
      + 0x100_0000 * ByteAt(bytes, 29);
    seq(length, i requires 0 <= i => ByteAt(bytes, 5 + i) as char)
  }

  /**
   * A list of siblings, each with its blocks and its own list of children; words are the names
   * that the data blocks of a file spell.
   */
  datatype Forest =
    | Nil
    | Entry(
        name: string, kind: Kind, blk: nat, ino: nat, data: seq<nat>, words: seq<string>, kids: Forest, rest: Forest)

  /** A path from the root on, the root's own name first. */
  type Path = seq<string>

  function Files(f: Forest): seq<nat> {
    if f.Nil? then [] else [f.blk] + Files(f.rest)
  }

  ghost function Own(f: Forest): set<nat>
    requires f.Entry?
  {
    {f.blk, f.ino} + set d | d in f.data
  }

  ghost function Blocks(f: Forest): set<nat> {
    if f.Nil? then {} else Own(f) + Blocks(f.kids) + Blocks(f.rest)
  }

  predicate HasName(f: Forest, name: string) {
    f.Entry? && (f.name == name || HasName(f.rest, name))
  }

  /** Sibling names are unique, no block is used twice, and only directories have children. */
  ghost predicate TreeOk(f: Forest) {
    f.Entry? ==>
      && f.blk != f.ino && f.blk !in f.data && f.ino !in f.data
      && |f.words| == |f.data| && (if f.kind == Regular then f.kids == Nil else f.data == [])
      && Own(f) !! Blocks(f.kids) && Own(f) !! Blocks(f.rest) && Blocks(f.kids) !! Blocks(f.rest)
      && !HasName(f.rest, f.name)
      && TreeOk(f.kids) && TreeOk(f.rest)
  }

  function IndexOf(f: Forest): seq<nat>
    requires f.Entry?
  {
    if f.kind == Directory then Files(f.kids) else f.data
  }

  /** The blocks of one entry, without those of its children, are on the disk. */
  ghost predicate EntryOn(disk: Disk, f: Forest)
    requires f.Entry?
  {
    && f.blk < |disk| && f.ino < |disk|
    && disk[f.blk] == File(f.name, f.kind, f.ino) && disk[f.ino] == Inode(IndexOf(f))
    && |f.words| == |f.data|
    && forall i :: 0 <= i < |f.data| ==>
      f.data[i] < |disk| && disk[f.data[i]].Data? && NameIn(disk[f.data[i]].bytes) == f.words[i]
  }

  ghost predicate OnDisk(disk: Disk, f: Forest) {
    f.Entry? ==> EntryOn(disk, f) && OnDisk(disk, f.kids) && OnDisk(disk, f.rest)
  }

  const SLASH: string := "/"

  function Root(t: Forest): (r: Forest)
    ensures r.Entry? && r.kids == t
  {
    Entry(SLASH, Directory, 0, 1, [], [], t, Nil)
  }

  /** The disk spells the tree t below the root, and every other block is free. */
  ghost predicate FsOk(disk: Disk, t: Forest) {
    && |disk| == 100 && TreeOk(Root(t)) && OnDisk(disk, Root(t))
    && forall b: nat :: b < 100 ==> (disk[b] == Free <==> b !in Blocks(Root(t)))
  }

  // ---------- the disk decides the tree ----------

  lemma {:induction false} OnDiskFrame(disk: Disk, disk': Disk, f: Forest)
    requires OnDisk(disk, f) && |disk'| == |disk|
    requires forall b :: b in Blocks(f) ==> b < |disk| && disk'[b] == disk[b]
    ensures OnDisk(disk', f)
  {
    if f.Entry? {
      assert forall i :: 0 <= i < |f.data| ==> f.data[i] in Own(f);
      OnDiskFrame(disk, disk', f.kids);
      OnDiskFrame(disk, disk', f.rest);
    }
  }

  /** A write to a block that a tree does not use. */
  lemma OneWrite(disk: Disk, x: nat, v: Block, f: Forest)
    requires OnDisk(disk, f) && x < |disk| && x !in Blocks(f)
    ensures OnDisk(disk[x := v], f)
  {
    BlocksOnDisk(disk, f);
    OnDiskFrame(disk, disk[x := v], f);
  }

  lemma {:induction false} BlocksOnDisk(disk: Disk, f: Forest)
    requires OnDisk(disk, f)
    ensures forall b :: b in Blocks(f) ==> b < |disk| && disk[b] != Free
  {
    if f.Entry? {
      BlocksOnDisk(disk, f.kids);
      BlocksOnDisk(disk, f.rest);
    }
  }

  lemma {:induction false} OneForest(disk: Disk, f: Forest, g: Forest)
    requires OnDisk(disk, f) && OnDisk(disk, g) && TreeOk(f) && TreeOk(g) && Files(f) == Files(g)
    ensures f == g
  {
    if f.Entry? {
      assert g.Entry?;
      assert Files(f)[0] == f.blk && Files(g)[0] == g.blk;
      assert Files(f)[1..] == Files(f.rest) && Files(g)[1..] == Files(g.rest);
      OneForest(disk, f.rest, g.rest);
      assert f.words == g.words;
      if f.kind == Directory {
        OneForest(disk, f.kids, g.kids);
      }
    }
  }

  /** A disk spells at most one tree. */
  lemma OneTree(disk: Disk, t: Forest, u: Forest)
    requires FsOk(disk, t) && FsOk(disk, u)
    ensures t == u
  {
    OneForest(disk, t, u);
  }

  // ---------- lookup ----------

  /** The entry a path leads to, with its later siblings; Nil when there is none. */
  function Locate(f: Forest, path: Path): (e: Forest)
    requires path != []
    ensures e.Entry? ==> e.name == path[|path| - 1]
    decreases f
  {
    if f.Nil? then Nil
    else if f.name != path[0] then Locate(f.rest, path)
    else if |path| == 1 then f
    else Locate(f.kids, path[1..])
  }

  datatype Node = Node(kind: Kind, blk: nat, ino: nat, data: seq<nat>)

  function Lookup(f: Forest, path: Path): Option<Node>
    requires path != []
  {
    var e := Locate(f, path);
    if e.Nil? then None else Some(Node(e.kind, e.blk, e.ino, e.data))
  }

  /** An entry with its children under a name of its own, apart from its siblings. */
  function Alone(e: Forest, name: string): (x: Forest)
    requires e.Entry?
    ensures x.Entry? && x.name == name && x.rest == Nil
  {
    Entry(name, e.kind, e.blk, e.ino, e.data, e.words, e.kids, Nil)
  }

  function Append(f: Forest, e: Forest): Forest {
    if f.Nil? then e else f.(rest := Append(f.rest, e))
  }

  /** Adds an entry behind the children of the directory at dir. */
  function Attach(f: Forest, dir: Path, e: Forest): Forest
    requires dir != []
    decreases f
  {
    if f.Nil? then Nil
    else if f.name != dir[0] then f.(rest := Attach(f.rest, dir, e))
    else if |dir| == 1 then f.(kids := Append(f.kids, e))
    else f.(kids := Attach(f.kids, dir[1..], e))
  }

  /** Takes out the entry at a path. */
  function Remove(f: Forest, path: Path): Forest
    requires path != []
    decreases f
  {
    if f.Nil? then Nil
    else if f.name != path[0] then f.(rest := Remove(f.rest, path))
    else if |path| == 1 then f.rest
    else f.(kids := Remove(f.kids, path[1..]))
  }

  predicate Under(path: Path, p: Path) {
    |path| <= |p| && p[..|path|] == path
  }

  function Parent(path: Path): Path
    requires path != []
  {
    path[..|path| - 1]
  }

  function Last(path: Path): string
    requires path != []
  {
    path[|path| - 1]
  }

  lemma {:induction false} NoName(f: Forest, path: Path)
    requires path != [] && !HasName(f, path[0])
    ensures Locate(f, path) == Nil
  {
    if f.Entry? {
      NoName(f.rest, path);
    }
  }

  /** Walking a path in two parts. */
  lemma {:induction false} LocateStep(f: Forest, path: Path, s: Path)
    requires path != [] && s != []
    ensures Locate(f, path + s) ==
      var e := Locate(f, path);
      if e.Nil? then Nil else Locate(e.kids, s)
    decreases f
  {
    if f.Entry? {
      assert (path + s)[0] == path[0];
      if f.name != path[0] {
        LocateStep(f.rest, path, s);
      } else if |path| == 1 {
        assert (path + s)[1..] == s;
      } else {
        assert (path + s)[1..] == path[1..] + s;
        LocateStep(f.kids, path[1..], s);
      }
    }
  }

  lemma LocateParent(f: Forest, path: Path)
    requires |path| >= 2
    ensures Locate(f, path) ==
      var d := Locate(f, Parent(path));
      if d.Nil? then Nil else Locate(d.kids, [Last(path)])
  {
    assert path == Parent(path) + [Last(path)];
    LocateStep(f, Parent(path), [Last(path)]);
  }

  lemma {:induction false} ChildNamed(f: Forest, name: string)
    ensures Locate(f, [name]).Entry? <==> HasName(f, name)
  {
    if f.Entry? {
      ChildNamed(f.rest, name);
    }
  }

  // ---------- lookup after removal and after attachment ----------

  lemma UnderStep(path: Path, p: Path)
    requires path != [] && p != []
    ensures Under(path, p) <==> path[0] == p[0] && Under(path[1..], p[1..])
  {
    assert path == [path[0]] + path[1..];
    if |path| <= |p| {
      assert p[..|path|] == [p[0]] + p[1..][..|path| - 1];
      assert p[..|path|][0] == p[0] && p[..|path|][1..] == p[1..][..|path| - 1];
    }
  }

  /** Removal hides the entry and all below it, and nothing else. */
  lemma {:induction false} LookupRemove(f: Forest, path: Path, p: Path)
    requires TreeOk(f) && path != [] && p != []
    ensures Lookup(Remove(f, path), p) == if Under(path, p) then None else Lookup(f, p)
    decreases f
  {
    if f.Entry? {
      UnderStep(path, p);
      if f.name != path[0] {
        LookupRemove(f.rest, path, p);
      } else if |path| == 1 {
        if p[0] == f.name {
          NoName(f.rest, p);
        }
      } else if p[0] == f.name && |p| > 1 {
        LookupRemove(f.kids, path[1..], p[1..]);
      }
    }
  }

  lemma {:induction false} LocateAppend(f: Forest, e: Forest, p: Path)
    requires p != [] && e.Entry? && e.rest == Nil && !HasName(f, e.name)
    ensures Locate(Append(f, e), p) == Nil <==> Locate(f, p) == Nil && Locate(e, p) == Nil
    ensures Lookup(Append(f, e), p) == if p[0] == e.name then Lookup(e, p) else Lookup(f, p)
  {
    if f.Entry? {
      LocateAppend(f.rest, e, p);
      if p[0] != e.name {
        NoName(e, p);
      } else {
        NoName(f, p);
      }
    } else if p[0] != e.name {
      NoName(e, p);
    }
  }

  /** Attachment shows the new entry and all below it at its path, and changes nothing else. */
  lemma {:induction false} LookupAttach(f: Forest, dir: Path, e: Forest, p: Path)
    requires TreeOk(f) && dir != [] && p != [] && e.Entry? && e.rest == Nil
    requires Locate(f, dir).Entry? && !HasName(Locate(f, dir).kids, e.name)
    ensures Lookup(Attach(f, dir, e), p) ==
      if Under(dir + [e.name], p) then Lookup(e, p[|dir|..]) else Lookup(f, p)
    decreases f
  {
    var full := dir + [e.name];
    UnderStep(full, p);
    assert full[1..] == dir[1..] + [e.name];
    if f.name != dir[0] {
      LookupAttach(f.rest, dir, e, p);
    } else if p[0] == f.name && |p| > 1 {
      if |dir| == 1 {
        LocateAppend(f.kids, e, p[1..]);
        assert Under(full[1..], p[1..]) <==> p[1] == e.name by {
          assert full[1..] == [e.name] && p[1..][..1] == [p[1]];
        }
      } else {
        LookupAttach(f.kids, dir[1..], e, p[1..]);
        assert |p| >= |dir| ==> p[1..][|dir| - 1..] == p[|dir|..];
      }
    }
  }

  // ---------- re-rooting ----------

  /** What rename makes of the tree: the entry at old leaves its list and joins that of new's parent. */
  function Moved(t: Forest, old_: Path, new_: Path): Forest
    requires |old_| >= 2 && |new_| >= 2 && Locate(t, old_).Entry?
  {
    Attach(Remove(t, old_), Parent(new_), Alone(Locate(t, old_), Last(new_)))
  }

  /** Where a move is sound: its target is free, in a directory that does not move along. */
  ghost predicate MoveOk(t: Forest, old_: Path, new_: Path) {
    && |old_| >= 2 && |new_| >= 2
    && Locate(t, old_).Entry? && Locate(t, new_).Nil?
    && Locate(t, Parent(new_)).Entry? && Locate(t, Parent(new_)).kind == Directory
    && !Under(old_, Parent(new_))
  }

  lemma AloneLookup(e: Forest, name: string, s: Path)
    requires e.Entry?
    ensures Lookup(Alone(e, name), [name] + s) ==
      if s == [] then Some(Node(e.kind, e.blk, e.ino, e.data)) else Lookup(e.kids, s)
  {
    var x := Alone(e, name);
    assert ([name] + s)[0] == name;
    if s != [] {
      assert ([name] + s)[1..] == s;
    }
  }

  lemma {:induction false} LocateRemove(f: Forest, path: Path, p: Path, name: string)
    requires TreeOk(f) && path != [] && p != [] && !Under(path, p) && Locate(f, p).Entry?
    ensures Locate(Remove(f, path), p).Entry?
    ensures HasName(Locate(Remove(f, path), p).kids, name) ==> HasName(Locate(f, p).kids, name)
    decreases f
  {
    UnderStep(path, p);
    if f.name != path[0] {
      if f.name != p[0] {
        LocateRemove(f.rest, path, p, name);
      }
    } else if |path| == 1 {
      assert Under(path[1..], p[1..]);
    } else if p[0] == f.name {
      if |p| > 1 {
        LocateRemove(f.kids, path[1..], p[1..], name);
      } else {
        RemoveNames(f.kids, path[1..], name);
      }
    }
  }

  lemma {:induction false} RemoveNames(f: Forest, path: Path, name: string)
    requires path != []
    ensures HasName(Remove(f, path), name) ==> HasName(f, name)
  {
    if f.Entry? && f.name != path[0] {
      RemoveNames(f.rest, path, name);
    }
  }

  lemma SelfUnder(a: Path, s: Path)
    ensures Under(a, a + s)
  {
  }

  lemma NewIsApart(t: Forest, old_: Path, new_: Path, s: Path)
    requires MoveOk(t, old_, new_)
    ensures !Under(new_, old_ + s) && !Under(old_, new_)
  {
    UnderParent(old_, new_);
    UnderEither(new_, old_, s);
    UnderLocated(t, new_, old_);
  }

  lemma UnderParent(a: Path, b: Path)
    requires b != []
    ensures Under(a, b) ==> a == b || Under(a, Parent(b))
  {
    if |a| < |b| {
      assert Parent(b)[..|a|] == b[..|a|];
    }
  }

  lemma UnderEither(a: Path, b: Path, s: Path)
    ensures Under(a, b + s) ==> Under(a, b) || Under(b, a)
  {
    if |a| <= |b| {
      assert (b + s)[..|a|] == b[..|a|];
    } else if |a| <= |b + s| {
      assert (b + s)[..|a|][..|b|] == b;
    }
  }

  /** A path is found only if every path above it is. */
  lemma UnderLocated(t: Forest, a: Path, b: Path)
    requires a != [] && b != []
    ensures Under(a, b) && Locate(t, b).Entry? ==> Locate(t, a).Entry?
  {
    if |a| < |b| && Under(a, b) {
      assert b == a + b[|a|..];
      LocateStep(t, a, b[|a|..]);
    } else if Under(a, b) {
      assert a == b;
    }
  }

  /**
   * Rename re-roots the subtree: new + s afterwards is what old + s was, old and all below it
   * is gone, and every other path leads where it led.
   */
  lemma RenameReRoots(t: Forest, old_: Path, new_: Path, s: Path, p: Path)
    requires TreeOk(t) && MoveOk(t, old_, new_) && p != []
    ensures Lookup(Moved(t, old_, new_), new_ + s) == Lookup(t, old_ + s)
    ensures Lookup(Moved(t, old_, new_), old_ + s) == None
    ensures !Under(old_, p) && !Under(new_, p) ==> Lookup(Moved(t, old_, new_), p) == Lookup(t, p)
  {
    hide TreeOk, Locate, Attach, Remove, HasName, Under;
    var dir, name, e := Parent(new_), Last(new_), Locate(t, old_);
    var x := Alone(e, name);
    assert dir + [name] == new_;
    LocateParent(t, new_);
    ChildNamed(Locate(t, dir).kids, name);
    LocateRemove(t, old_, dir, name);
    var without := Remove(t, old_);
    RemoveTreeOk(t, old_);
    LookupAttach(without, dir, x, new_ + s);
    LookupAttach(without, dir, x, old_ + s);
    LookupAttach(without, dir, x, p);
    LookupRemove(t, old_, old_ + s);
    LookupRemove(t, old_, p);
    assert (new_ + s)[|dir|..] == [name] + s;
    SelfUnder(new_, s);
    SelfUnder(old_, s);
    NewIsApart(t, old_, new_, s);
    AloneLookup(e, name, s);
    if s == [] {
      assert old_ + s == old_;
    } else {
      LocateStep(t, old_, s);
    }
  }

  // ---------- the blocks of a tree ----------

  lemma {:induction false} RemoveTreeOk(f: Forest, path: Path)
    requires TreeOk(f) && path != []
    ensures TreeOk(Remove(f, path)) && Blocks(Remove(f, path)) <= Blocks(f)
    decreases f
  {
    if f.Entry? {
      if f.name != path[0] {
        RemoveTreeOk(f.rest, path);
        RemoveNames(f.rest, path, f.name);
      } else if |path| > 1 {
        RemoveTreeOk(f.kids, path[1..]);
      }
    }
  }

  lemma {:induction false} LocateBlocks(f: Forest, path: Path)
    requires TreeOk(f) && path != [] && Locate(f, path).Entry?
    ensures var e := Locate(f, path);
      && Own(e) <= Blocks(f) && Blocks(e.kids) <= Blocks(f) && TreeOk(e) && Own(e) !! Blocks(e.kids)
      && TreeOk(Alone(e, Last(path))) && Blocks(Alone(e, Last(path))) == Own(e) + Blocks(e.kids)
    decreases f
  {
    if f.name != path[0] {
      LocateBlocks(f.rest, path);
    } else if |path| > 1 {
      LocateBlocks(f.kids, path[1..]);
    }
  }

  /** A block of the siblings or of the children is in no other part of the tree. */
  lemma OnePart(f: Forest)
    requires TreeOk(f) && f.Entry?
    ensures TreeOk(f.kids) && TreeOk(f.rest)
    ensures forall x :: x in Blocks(f.rest) ==> x !in Own(f) && x !in Blocks(f.kids) && x in Blocks(f)
    ensures forall x :: x in Blocks(f.kids) ==> x !in Own(f) && x !in Blocks(f.rest) && x in Blocks(f)
  {
  }

  lemma OwnIno(f: Forest)
    requires f.Entry?
    ensures f.ino in Own(f)
  {
  }

  /** Removal gives up exactly the blocks of the entry and of all below it. */
  lemma {:induction false} BlocksRemove(f: Forest, path: Path)
    requires TreeOk(f) && path != [] && Locate(f, path).Entry?
    ensures Blocks(Remove(f, path)) == Blocks(f) - Blocks(Alone(Locate(f, path), Last(path)))
    decreases f
  {
    LocateBlocks(f, path);
    if f.name != path[0] {
      LocateBlocks(f.rest, path);
      BlocksRemove(f.rest, path);
    } else if |path| > 1 {
      LocateBlocks(f.kids, path[1..]);
      BlocksRemove(f.kids, path[1..]);
    }
  }

  lemma {:induction false} AppendOk(f: Forest, e: Forest)
    requires TreeOk(f) && TreeOk(e) && e.Entry? && e.rest == Nil
    requires Blocks(f) !! Blocks(e) && !HasName(f, e.name)
    ensures TreeOk(Append(f, e)) && Blocks(Append(f, e)) == Blocks(f) + Blocks(e)
    ensures Files(Append(f, e)) == Files(f) + [e.blk]
    ensures forall n :: HasName(Append(f, e), n) <==> HasName(f, n) || n == e.name
  {
    if f.Entry? {
      AppendOk(f.rest, e);
    }
  }

  /** An entry that can join the children of the directory at dir. */
  ghost predicate CanJoin(f: Forest, dir: Path, e: Forest) {
    && TreeOk(f) && TreeOk(e) && Blocks(f) !! Blocks(e) && e.Entry? && e.rest == Nil && dir != []
    && Locate(f, dir).Entry? && Locate(f, dir).kind == Directory && !HasName(Locate(f, dir).kids, e.name)
  }

  lemma {:induction false} AttachOk(f: Forest, dir: Path, e: Forest)
    requires CanJoin(f, dir, e)
    ensures TreeOk(Attach(f, dir, e)) && Blocks(Attach(f, dir, e)) == Blocks(f) + Blocks(e)
    ensures Files(Attach(f, dir, e)) == Files(f)
    ensures forall n :: HasName(Attach(f, dir, e), n) <==> HasName(f, n)
    decreases f
  {
    if f.name != dir[0] {
      AttachOk(f.rest, dir, e);
    } else if |dir| == 1 {
      AppendOk(f.kids, e);
    } else {
      AttachOk(f.kids, dir[1..], e);
    }
  }

  // ---------- the same steps on the disk ----------

  lemma {:induction false} FilesInBlocks(f: Forest)
    ensures forall b :: b in Files(f) ==> b in Blocks(f)
  {
    if f.Entry? {
      FilesInBlocks(f.rest);
    }
  }

  /** Taking a sibling out of the list takes its file block out of the inode. */
  lemma {:induction false} FilesRemove(f: Forest, name: string)
    requires TreeOk(f) && Locate(f, [name]).Entry?
    ensures Files(Remove(f, [name])) == Erased(Files(f), Position(Files(f), Locate(f, [name]).blk))
  {
    var e := Locate(f, [name]);
    assert Files(f)[0] == f.blk && Files(f)[1..] == Files(f.rest);
    if f.name != name {
      FilesRemove(f.rest, name);
      LocateBlocks(f.rest, [name]);
      assert e.blk in Own(e);
      FileListed(f.rest, [name]);
      ErasedTail(Files(f), e.blk, Position(Files(f.rest), e.blk));
    }
  }

  lemma ErasedTail(s: seq<nat>, x: nat, k: nat)
    requires s != [] && k < |s| - 1
    ensures Erased(s, k + 1) == [s[0]] + Erased(s[1..], k)
  {
    assert s[..k + 1] == [s[0]] + s[1..][..k];
    assert s[k + 2..] == s[1..][k + 1..];
  }

  lemma {:induction false} FilesKept(f: Forest, path: Path)
    requires |path| >= 2
    ensures Files(Remove(f, path)) == Files(f)
  {
    if f.Entry? && f.name != path[0] {
      FilesKept(f.rest, path);
    }
  }

  lemma {:induction false} FileListed(f: Forest, path: Path)
    requires |path| == 1 && Locate(f, path).Entry?
    ensures Position(Files(f), Locate(f, path).blk) < |Files(f)|
  {
    var b := Locate(f, path).blk;
    assert Files(f)[1..] == Files(f.rest);
    if f.name != path[0] {
      FileListed(f.rest, path);
    } else {
      assert Files(f)[0] == b;
    }
  }

  /** The list of a directory without one of its files. */
  function Unlisted(d: Forest, b: nat): Block
    requires d.Entry?
  {
    Inode(Erased(Files(d.kids), Position(Files(d.kids), b)))
  }

  function Listed(d: Forest, b: nat): Block
    requires d.Entry?
  {
    Inode(IndexOf(d) + [b])
  }

  lemma {:induction false} RemoveStaysOn(disk: Disk, f: Forest, name: string)
    requires OnDisk(disk, f)
    ensures OnDisk(disk, Remove(f, [name]))
  {
    if f.Entry? && f.name != name {
      RemoveStaysOn(disk, f.rest, name);
    }
  }

  lemma StrikeChild(disk: Disk, f: Forest, name: string)
    requires OnDisk(disk, f) && TreeOk(f) && f.Entry? && Locate(f.kids, [name]).Entry?
    ensures var disk' := disk[f.ino := Unlisted(f, Locate(f.kids, [name]).blk)];
      f.ino < |disk| && OnDisk(disk', f.(kids := Remove(f.kids, [name])))
  {
    var v := Unlisted(f, Locate(f.kids, [name]).blk);
    assert f.ino in Own(f);
    RemoveStaysOn(disk, f.kids, name);
    RemoveTreeOk(f.kids, [name]);
    OneWrite(disk, f.ino, v, f.rest);
    OneWrite(disk, f.ino, v, Remove(f.kids, [name]));
    FilesRemove(f.kids, name);
  }

  /** Striking the file at path off the list of its directory is removal. */
  ghost predicate Strikes(disk: Disk, f: Forest, path: Path) {
    |path| >= 2 && Locate(f, path).Entry? &&
    var d := Locate(f, Parent(path));
    && d.Entry? && d.kind == Directory && d.ino in Blocks(f) && d.ino < |disk|
    && OnDisk(disk[d.ino := Unlisted(d, Locate(f, path).blk)], Remove(f, path))
  }

  lemma StrikesInRest(disk: Disk, f: Forest, path: Path)
    requires OnDisk(disk, f) && TreeOk(f) && f.Entry? && path != [] && f.name != path[0]
    requires Strikes(disk, f.rest, path)
    ensures Strikes(disk, f, path)
  {
    hide TreeOk, Blocks, Own, Unlisted;
    OnePart(f);
    var d := Locate(f.rest, Parent(path));
    OneWrite(disk, d.ino, Unlisted(d, Locate(f, path).blk), f.kids);
    EntryFrame(disk, d.ino, Unlisted(d, Locate(f, path).blk), f);
  }

  lemma StrikesInKids(disk: Disk, f: Forest, path: Path)
    requires OnDisk(disk, f) && TreeOk(f) && f.Entry? && |path| > 2 && f.name == path[0]
    requires Strikes(disk, f.kids, path[1..])
    ensures Strikes(disk, f, path)
  {
    hide TreeOk, Blocks, Own, Unlisted;
    OnePart(f);
    var rest := path[1..];
    var d := Locate(f.kids, Parent(rest));
    assert Parent(path)[1..] == Parent(rest);
    FilesKept(f.kids, rest);
    OneWrite(disk, d.ino, Unlisted(d, Locate(f, path).blk), f.rest);
    EntryFrame(disk, d.ino, Unlisted(d, Locate(f, path).blk), f);
  }

  lemma StrikesHere(disk: Disk, f: Forest, path: Path)
    requires OnDisk(disk, f) && TreeOk(f) && f.Entry? && |path| == 2 && f.name == path[0]
    requires Locate(f, path).Entry?
    ensures Strikes(disk, f, path)
  {
    assert path[1..] == [path[1]] && Parent(path) == [path[0]];
    assert Locate(f, Parent(path)) == f;
    assert Remove(f, path) == f.(kids := Remove(f.kids, [path[1]]));
    StrikeChild(disk, f, path[1]);
  }

  lemma {:induction false} RemoveOnDisk(disk: Disk, f: Forest, path: Path)
    requires OnDisk(disk, f) && TreeOk(f) && |path| >= 2 && Locate(f, path).Entry?
    ensures Strikes(disk, f, path)
    decreases f
  {
    if f.name != path[0] {
      RemoveOnDisk(disk, f.rest, path);
      StrikesInRest(disk, f, path);
    } else if |path| == 2 {
      StrikesHere(disk, f, path);
    } else {
      RemoveOnDisk(disk, f.kids, path[1..]);
      StrikesInKids(disk, f, path);
    }
  }

  lemma EntryFrame(disk: Disk, x: nat, v: Block, f: Forest)
    requires f.Entry? && EntryOn(disk, f) && x < |disk| && x !in Own(f)
    ensures EntryOn(disk[x := v], f)
  {
    assert forall i :: 0 <= i < |f.data| ==> f.data[i] in Own(f);
  }

  lemma {:induction false} AppendOnDisk(disk: Disk, f: Forest, e: Forest)
    requires OnDisk(disk, f) && OnDisk(disk, e)
    ensures OnDisk(disk, Append(f, e))
  {
    if f.Entry? {
      AppendOnDisk(disk, f.rest, e);
    }
  }

  /** Adding a file to the list of the directory at dir is attachment. */
  ghost predicate Joins(disk: Disk, f: Forest, dir: Path, e: Forest) {
    dir != [] && Locate(f, dir).Entry? && e.Entry? &&
    var d := Locate(f, dir);
    d.ino in Blocks(f) && d.ino < |disk| && OnDisk(disk[d.ino := Listed(d, e.blk)], Attach(f, dir, e))
  }

  lemma JoinsInRest(disk: Disk, f: Forest, dir: Path, e: Forest)
    requires OnDisk(disk, f) && TreeOk(f) && f.Entry? && dir != [] && f.name != dir[0]
    requires Joins(disk, f.rest, dir, e)
    ensures Joins(disk, f, dir, e)
  {
    hide TreeOk, Blocks, Own, Listed;
    OnePart(f);
    var d := Locate(f.rest, dir);
    OneWrite(disk, d.ino, Listed(d, e.blk), f.kids);
    EntryFrame(disk, d.ino, Listed(d, e.blk), f);
  }

  lemma JoinsInKids(disk: Disk, f: Forest, dir: Path, e: Forest)
    requires OnDisk(disk, f) && CanJoin(f, dir, e) && |dir| > 1 && f.name == dir[0]
    requires CanJoin(f.kids, dir[1..], e) && Joins(disk, f.kids, dir[1..], e)
    ensures Joins(disk, f, dir, e)
  {
    hide TreeOk, Blocks, Own, Listed, HasName;
    AttachOk(f.kids, dir[1..], e);
    OnePart(f);
    var d := Locate(f.kids, dir[1..]);
    OneWrite(disk, d.ino, Listed(d, e.blk), f.rest);
    EntryFrame(disk, d.ino, Listed(d, e.blk), f);
  }

  lemma JoinsHere(disk: Disk, f: Forest, dir: Path, e: Forest)
    requires OnDisk(disk, f) && OnDisk(disk, e) && CanJoin(f, dir, e) && |dir| == 1 && f.name == dir[0]
    ensures Joins(disk, f, dir, e)
  {
    AppendOk(f.kids, e);
    AppendOnDisk(disk, f.kids, e);
    BlocksOnDisk(disk, f);
    OwnIno(f);
    OneWrite(disk, f.ino, Listed(f, e.blk), f.rest);
    OneWrite(disk, f.ino, Listed(f, e.blk), Append(f.kids, e));
  }

  lemma {:induction false} AttachOnDisk(disk: Disk, f: Forest, dir: Path, e: Forest)
    requires OnDisk(disk, f) && OnDisk(disk, e) && CanJoin(f, dir, e)
    ensures Joins(disk, f, dir, e)
    decreases f
  {
    if f.name != dir[0] {
      AttachOnDisk(disk, f.rest, dir, e);
      JoinsInRest(disk, f, dir, e);
    } else if |dir| == 1 {
      JoinsHere(disk, f, dir, e);
    } else {
      AttachOnDisk(disk, f.kids, dir[1..], e);
      JoinsInKids(disk, f, dir, e);
    }
  }

  // ---------- capacity ----------

  lemma {:induction false} TwoBlocksEach(f: Forest)
    requires TreeOk(f)
    ensures 2 * |Files(f)| <= |Blocks(f)|
  {
    if f.Entry? {
      TwoBlocksEach(f.rest);
      assert Blocks(f) == Own(f) + Blocks(f.kids) + Blocks(f.rest);
      var two := {f.blk, f.ino};
      assert two + Blocks(f.rest) <= Blocks(f);
      SubsetSize(two + Blocks(f.rest), Blocks(f));
      assert |two + Blocks(f.rest)| == 2 + |Blocks(f.rest)|;
    }
  }

  lemma KidsOk(f: Forest)
    requires TreeOk(f) && f.Entry?
    ensures TreeOk(f.kids)
  {
  }

  /** No directory of a disk of 100 blocks fills its list of 94: every file takes two blocks. */
  lemma ListsNeverFill(disk: Disk, t: Forest, path: Path)
    requires FsOk(disk, t) && path != [] && Locate(Root(t), path).Entry?
    ensures |Files(Locate(Root(t), path).kids)| <= 50
  {
    hide Blocks, TreeOk, Locate, OnDisk, Root;
    var d, all := Locate(Root(t), path), Blocks(Root(t));
    LocateBlocks(Root(t), path);
    KidsOk(d);
    BlocksOnDisk(disk, Root(t));
    TwoBlocksEach(d.kids);
    RangeSize(0, 100);
    SubsetSize(Blocks(d.kids), Range(0, 100));
  }

  lemma {:induction false} LocateOnDisk(disk: Disk, f: Forest, path: Path)
    requires OnDisk(disk, f) && path != [] && Locate(f, path).Entry?
    ensures EntryOn(disk, Locate(f, path)) && OnDisk(disk, Locate(f, path).kids)
    decreases f
  {
    if f.name != path[0] {
      LocateOnDisk(disk, f.rest, path);
    } else if |path| > 1 {
      LocateOnDisk(disk, f.kids, path[1..]);
    }
  }

  /** Taking out what was just attached gives the old tree. */
  lemma {:induction false} RemoveUndoesAttach(f: Forest, dir: Path, e: Forest)
    requires TreeOk(f) && dir != [] && e.Entry? && e.rest == Nil
    requires Locate(f, dir).Entry? && !HasName(Locate(f, dir).kids, e.name)
    ensures Locate(Attach(f, dir, e), dir + [e.name]) == e
    ensures Remove(Attach(f, dir, e), dir + [e.name]) == f
    decreases f
  {
    var full := dir + [e.name];
    assert full[0] == dir[0] && full[1..] == dir[1..] + [e.name];
    if f.name != dir[0] {
      RemoveUndoesAttach(f.rest, dir, e);
    } else if |dir| == 1 {
      assert full[1..] == [e.name];
      RemoveUndoesAppend(f.kids, e);
    } else {
      RemoveUndoesAttach(f.kids, dir[1..], e);
    }
  }

  lemma {:induction false} RemoveUndoesAppend(f: Forest, e: Forest)
    requires e.Entry? && e.rest == Nil && !HasName(f, e.name)
    ensures Locate(Append(f, e), [e.name]) == e && Remove(Append(f, e), [e.name]) == f
  {
    if f.Entry? {
      RemoveUndoesAppend(f.rest, e);
    }
  }
}
