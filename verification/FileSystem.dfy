/**
 * The calls of the file system (fs/file_t.cpp, create.cpp, mkdir.cpp, rename.cpp, rmdir.cpp) on
 * an array of 100 blocks.  A sector read or write is an array access; paths come split.
 */
module FileSystem {
  import opened Common
  import opened StaticVectors
  import opened FsTree
  import opened FileFind
  import opened DiskSteps
  import opened FileCalls

  class FileSystem {
    const disk: array<Block>
    ghost var tree: Forest

    ghost predicate Valid()
      reads this, disk
    {
      disk.Length == 100 && FsOk(disk[..], tree)
    }

    ghost function View(): State
      reads this, disk
    {
      State(disk[..], tree)
    }

    /** An empty file system: the root in block 0, its empty inode in block 1. */
    constructor ()
      ensures Valid() && fresh(disk) && tree == Nil
    {
      disk := new Block[100](i => if i == 0 then File(SLASH, Directory, 1) else if i == 1 then Inode([]) else Free);
      tree := Nil;
      new;
      EmptyDisk(disk[..]);
    }

    // ---------- find ----------

    /** The walk of file_t::find from the file block at `at`. */
    method FindFrom(at: nat, first: Path, ghost d: Forest) returns (r: FindResult)
      requires disk.Length == 100 && d.Entry? && TreeOk(d) && EntryOn(disk[..], d) && OnDisk(disk[..], d.kids)
      requires at == d.blk && first != []
      ensures r == FindIn(d, first)
      decreases |first|
    {
      hide Blocks, Own, NameIn, TreeOk;
      KidsFacts(d);
      var files := disk[disk[at].inode].index;
      if |files| == 0 {
        return Missing;
      }
      ghost var g := d.kids;
      var i := 0;
      while i < |files|
        invariant i <= |files| && files == IndexOf(d)
        invariant d.kind == Directory ==> files[i..] == Files(g) && TreeOk(g) && OnDisk(disk[..], g)
        invariant d.kind == Directory ==> Locate(g, [first[0]]) == Locate(d.kids, [first[0]])
        invariant d.kind == Directory && i == |files| ==> g == Nil
        invariant d.kind == Regular ==> first[0] !in d.words[..i]
        invariant i == |files| ==> |first| > 1
        decreases |files| - i
      {
        if d.kind == Regular {
          assert disk[..][d.data[i]].Data? && NameIn(disk[..][d.data[i]].bytes) == d.words[i];
        } else {
          assert files[i] == Files(g)[0] == g.blk;
          assert Files(g)[1..] == Files(g.rest);
          FirstAndRest(disk[..], g);
        }
        var tmp := disk[files[i]];
        if (if tmp.File? then tmp.name else NameIn(tmp.bytes)) == first[0] {
          if !tmp.File? {
            return Forged; // a data block is taken for a file block
          }
          if |first| == 1 {
            return Found(files[i]);
          }
          r := FindFrom(files[i], first[1..], g);
          return;
        } else if i == |files| - 1 && |first| == 1 {
          return Missing;
        }
        if d.kind == Directory {
          g := g.rest;
        } else {
          assert d.words[..i + 1] == d.words[..i] + [d.words[i]];
        }
        i := i + 1;
      }
      assert d.kind == Regular ==> d.words[..i] == d.words;
      r := Strayed; // the end of the function without a return
    }

    /** find of a whole path: the root for no names, else the walk from the root. */
    method Find(names: Path) returns (r: FindResult)
      requires Valid()
      ensures r == FindPath(tree, names)
    {
      if |names| == 0 {
        return Found(0);
      }
      r := FindFrom(0, names, Root(tree));
    }

    method Search(want: nat) returns (r: seq<nat>)
      requires disk.Length == 100 && want > 0
      ensures r == FirstFree(disk[..], 0, want)
    {
      hide FirstFree;
      r := [];
      ghost var sectors := disk[..];
      var i := 0;
      while i < 10
        invariant 0 <= i <= 10 && |r| < want
        invariant FirstFree(sectors, 0, want) == r + FirstFree(sectors, i, want - |r|)
      {
        FirstFreeStep(sectors, i, want - |r|);
        if disk[i] == Free {
          assert r + ([i] + FirstFree(sectors, i + 1, want - |r| - 1))
              == r + [i] + FirstFree(sectors, i + 1, want - |r| - 1);
          r := r + [i];
          if |r| == want {
            NoneLeft(sectors, i + 1);
            return;
          }
        }
        i := i + 1;
      }
      AtTen(sectors, want - |r|);
    }

    /** file_t::add: puts a block on the list of the file at block `at`. */
    method AddTo(at: nat, x: nat)
      requires disk.Length == 100 && at < 100 && disk[at].File? && disk[at].inode < 100 && disk[disk[at].inode].Inode?
      modifies disk
      ensures disk[..] == Write(old(disk[..]), old(disk[at].inode), Pushes(old(disk[disk[at].inode]), x))
    {
      var ino := disk[at].inode;
      disk[ino] := Inode(Pushed(disk[ino].index, x, 94));
    }

    // ---------- create and mkdir ----------

    /** The writes that create and mkdir share. */
    method NewFile(parent: nat, name: string, kind: Kind, a: nat, b: nat, ghost dir: Path)
      requires Valid() && TwoFree(disk[..], a, b) && At(tree, dir).Entry? && parent == At(tree, dir).blk
      modifies disk
      ensures At(tree, dir).ino < 100
      ensures disk[..] == AfterNew(old(disk[..]), At(tree, dir), name, kind, a, b)
    {
      hide TreeOk, OnDisk, Blocks, Locate, At, Files;
      ParentOnDisk(disk[..], tree, dir);
      disk[a] := File(name, kind, b);
      disk[b] := Inode([]);
      AddTo(parent, a);
    }

    /** create.  Nothing is promised of a call whose reply is undefined; so for all four calls. */
    method Create(names: Path) returns (r: Reply, file_handle: nat)
      requires Valid()
      modifies disk, `tree
      ensures r == CreateReply(old(disk[..]), old(tree), names)
      ensures r.Code? ==> Valid() && View() == Do(old(View()), Call.Create(names))
      ensures r.Code? && r != Code(0) ==> disk[..] == old(disk[..]) && tree == old(tree)
      ensures r == Code(0) ==>
        var free := FirstFree(old(disk[..]), 0, 2);
        && names != [] && IsDirectory(old(tree), Parent(names)) && At(old(tree), Parent(names)).ino < 100
        && TwoFree(old(disk[..]), free[0], free[1]) && file_handle == free[0]
        && tree == Join(old(tree), Parent(names), NewEntry(Last(names), Regular, free[0], free[1]))
        && disk[..] == AfterNew(old(disk[..]), At(old(tree), Parent(names)), Last(names), Regular, free[0], free[1])
    {
      hide TreeOk, OnDisk, Blocks, Locate, At, FindPath, Join, FirstFree;
      file_handle := 0;
      var p := Find(names);
      if p.Found? {
        return Code(-EEXIST), file_handle;
      }
      if p.Strayed? || p.Forged? {
        return Undefined, file_handle;
      }
      NoNamesFound(tree, names);
      var parent := Find(names[..|names| - 1]);
      if !parent.Found? {
        return Undefined, file_handle; // sector -1 is read
      }
      MissingFrom(tree, names);
      ParentOnDisk(disk[..], tree, Parent(names));
      if disk[parent.block].kind != Directory {
        return Code(-ENOTDIR), file_handle;
      }
      var free := Search(2);
      RoomIffTwoFree(disk[..]);
      if |free| != 2 {
        return Code(-EEXIST), file_handle;
      }
      NewEntryJoins(disk[..], tree, Parent(names), Last(names), Regular, free[0], free[1]);
      NewFile(parent.block, names[|names| - 1], Regular, free[0], free[1], Parent(names));
      tree := Join(tree, Parent(names), NewEntry(Last(names), Regular, free[0], free[1]));
      return Code(0), free[0];
    }

    /** mkdir; garbage is the name it reads when the path has none. */
    method Mkdir(names: Path, garbage: string) returns (r: Reply)
      requires Valid()
      modifies disk, `tree
      ensures r == MkdirReply(old(disk[..]), old(tree), names)
      ensures Allowed(old(View()), Call.Mkdir(names)) ==> Valid() && View() == Do(old(View()), Call.Mkdir(names))
      ensures r.Code? ==> disk[..] == AfterMkdir(old(disk[..]), old(tree), names, garbage)
      ensures r.Code? && r != Code(0) ==> tree == old(tree) && Valid()
      ensures r == Code(0) && !IsDirectory(old(tree), Up(names)) ==> !SpellsTree(disk[..])
    {
      hide TreeOk, OnDisk, Blocks, Locate, At, FindPath, Join, FirstFree;
      RootEntry(tree);
      var p := Find(names);
      if p.Strayed? || p.Forged? {
        return Undefined;
      }
      if names != [] && p.Found? {
        FoundIsNotRoot(tree, names);
      }
      if p.Found? && p.block > 0 {
        return Code(EEXIST);
      }
      ghost var dir := Up(names);
      var parent := Find(if |names| == 0 then [] else names[..|names| - 1]); // dirname of "/" is "/"
      if parent.Missing? {
        return Code(-ENOENT);
      }
      if parent.Strayed? || parent.Forged? {
        return Undefined;
      }
      var free := Search(2);
      RoomIffTwoFree(disk[..]);
      if |free| != 2 {
        return Code(-EEXIST);
      }
      MkdirFacts(disk[..], tree, names);
      var name := if |names| == 0 then garbage else names[|names| - 1];
      NewFile(parent.block, name, Directory, free[0], free[1], dir);
      if At(tree, dir).kind != Directory {
        forall u ensures !FsOk(disk[..], u) {
          NewInFile(old(disk[..]), tree, dir, name, Directory, free[0], free[1], u);
        }
      } else if names != [] {
        NewEntryJoins(old(disk[..]), tree, dir, name, Directory, free[0], free[1]);
        tree := Join(tree, dir, NewEntry(name, Directory, free[0], free[1]));
      }
      r := Code(0);
    }

    // ---------- rename ----------

    /** The writes of rename: the old parent's list, the name, and the new parent's list. */
    method MoveEntry(file: nat, parent: nat, newparent: Option<nat>, ghost from: Path, to: Path, stray: Stray)
      requires Valid() && Renames(disk[..], tree, from, to) && At(tree, Up(from)).Entry?
      requires file == At(tree, from).blk && parent == At(tree, Up(from)).blk && parent < 100
      requires disk[parent] == File(At(tree, Up(from)).name, Directory, At(tree, Up(from)).ino)
      requires newparent == if At(tree, Parent(to)).Entry? then Some(At(tree, Parent(to)).blk) else None
      modifies disk
      ensures At(tree, from).blk < 100 && At(tree, Up(from)).ino < 100
      ensures At(tree, Parent(to)).Entry? ==> At(tree, Parent(to)).ino < 100
      ensures disk[..] == AfterRename(old(disk[..]), tree, from, to, stray)
    {
      hide TreeOk, OnDisk, Blocks, Locate, At, FindPath, Files;
      RenameBlocks(disk[..], tree, from, to);
      var ft := disk[file];
      var pino := disk[parent].inode;
      var itparent := disk[pino];
      disk[pino] := Inode(Erased(itparent.index, Position(itparent.index, file)));
      disk[file] := ft.(name := to[|to| - 1]);
      if newparent.Some? {
        AddTo(newparent.value, file);
      } else if 0 <= stray.sector < 100 {
        disk[stray.sector] := stray.content; // an inode found through sector -1
      }
    }

    /** rename; stray is the write it makes when the new parent is missing. */
    method Rename(from: Path, to: Path, stray: Stray) returns (r: Reply)
      requires Valid()
      modifies disk, `tree
      ensures r == RenameReply(old(tree), from, to)
      ensures Allowed(old(View()), Call.Rename(from, to)) ==>
        Valid() && View() == Do(old(View()), Call.Rename(from, to))
      ensures r.Code? && r != Code(0) ==> disk[..] == old(disk[..]) && tree == old(tree) && Valid()
      ensures r == Code(0) ==> Renames(old(disk[..]), old(tree), from, to)
      ensures r == Code(0) ==> At(old(tree), Up(from)).Entry? && At(old(tree), from).blk < 100
      ensures r == Code(0) ==> At(old(tree), Up(from)).ino < 100
      ensures r == Code(0) && At(old(tree), Parent(to)).Entry? ==> At(old(tree), Parent(to)).ino < 100
      ensures r == Code(0) ==> disk[..] == AfterRename(old(disk[..]), old(tree), from, to, stray)
      ensures r == Code(0) && Sound(old(tree), from, to) ==> Valid() && tree == MovedTree(old(tree), from, to)
      ensures r == Code(0) && !Sound(old(tree), from, to) && At(old(tree), Parent(to)).Entry? && SLASH !in to ==>
        !SpellsTree(disk[..])
    {
      hide TreeOk, OnDisk, Blocks, Locate, At, FindPath, MovedTree, Files, Sound, SpellsTree;
      var file := Find(from);
      if file.Missing? {
        return Code(-ENOENT);
      }
      if file.Strayed? || file.Forged? {
        return Undefined;
      }
      var parent := Find(if |from| == 0 then [] else from[..|from| - 1]);
      var newfile := Find(to);
      if newfile.Found? {
        return Code(EEXIST);
      }
      if newfile.Strayed? || newfile.Forged? {
        return Undefined;
      }
      NoNamesFound(tree, to);
      MissingParent(tree, to);
      var newparent := Find(to[..|to| - 1]);
      FoundFrom(disk[..], tree, from);
      MoveFacts(disk[..], tree, from, to);
      if newparent.Found? {
        MissingFrom(tree, to);
      }
      ghost var was, t := disk[..], tree;
      MoveEntry(file.block, parent.block, if newparent.Found? then Some(newparent.block) else None, from, to, stray);
      if Sound(t, from, to) {
        SoundNotRoot(t, from, to);
        RenameMovesTree(was, t, from, to, stray);
        SoundIgnoresStray(was, t, from, to, stray);
        tree := MovedTree(t, from, to);
      } else if SLASH !in to {
        RenameKeepsTreeIffSound(was, t, from, to);
      }
      r := Code(0);
    }

    // ---------- rmdir ----------

    method RemoveData(index: seq<nat>)
      requires disk.Length == 100 && forall d :: d in index ==> d < 100
      modifies disk
      ensures forall b: nat :: b < 100 ==> disk[b] == if b in index then Free else old(disk[b])
    {
      var i := 0;
      while i < |index|
        invariant 0 <= i <= |index|
        invariant forall b: nat :: b < 100 ==> disk[b] == if b in index[..i] then Free else old(disk[b])
      {
        assert index[i] in index;
        disk[index[i]] := Free;
        i := i + 1;
      }
    }

    /** rmdir_rec: frees every file of a list and, below directories, every file of theirs. */
    method RmdirRec(index: seq<nat>, ghost f: Forest)
      requires disk.Length == 100 && OnDisk(disk[..], f) && TreeOk(f) && index == Files(f)
      modifies disk
      ensures forall b: nat :: b < 100 ==> disk[b] == if b in Blocks(f) then Free else old(disk[b])
      decreases Size(f), 1
    {
      hide TreeOk, OnDisk, Blocks;
      ghost var g := f;
      var i := 0;
      while i < |index|
        invariant 0 <= i <= |index| && index[i..] == Files(g) && Size(g) <= Size(f)
        invariant TreeOk(g) && OnDisk(disk[..], g) && Blocks(g) <= Blocks(f)
        invariant forall b: nat :: b < 100 ==>
          disk[b] == if b in Blocks(f) && b !in Blocks(g) then Free else old(disk[b])
      {
        assert index[i] == Files(g)[0] == g.blk;
        assert Files(g)[1..] == Files(g.rest);
        FirstAndRest(disk[..], g);
        ghost var before := disk[..];
        FreeEntry(index[i], g);
        OnDiskFrame(before, disk[..], g.rest);
        g := g.rest;
        i := i + 1;
      }
      assert g == Nil;
      NilBlocks(g);
    }

    /** The body of the loop of rmdir_rec. */
    method FreeEntry(blk: nat, ghost g: Forest)
      requires disk.Length == 100 && g.Entry? && OnDisk(disk[..], g) && TreeOk(g) && blk == g.blk
      modifies disk
      ensures forall b: nat :: b < 100 ==> disk[b] == if b in Own(g) + Blocks(g.kids) then Free else old(disk[b])
      decreases Size(g), 0
    {
      hide Blocks, TreeOk, OnDisk;
      FirstAndRest(disk[..], g);
      var file := disk[blk];
      var inode := disk[file.inode];
      if file.kind == Regular {
        disk[blk] := Free;
        disk[file.inode] := Free;
        RemoveData(inode.index);
        NilBlocks(g.kids);
      } else {
        if |inode.index| > 0 {
          RmdirRec(inode.index, g.kids);
        } else {
          EmptyFiles(g.kids);
        }
        disk[blk] := Free;
        disk[file.inode] := Free;
      }
    }

    /** The writes of rmdir. */
    method CutEntry(dir: nat, parent: nat, ghost names: Path)
      requires Valid() && FindPath(tree, names) == Found(dir) && FindPath(tree, Up(names)) == Found(parent)
      requires At(tree, names).Entry? && At(tree, names).data == []
      modifies disk
      ensures At(tree, Up(names)).Entry? && disk[..] == AfterRemoval(old(disk[..]), tree, names)
    {
      hide TreeOk, OnDisk, Blocks, Locate, At, FindPath, Remove, Files;
      FoundFrom(disk[..], tree, names);
      EmptyIndex(tree, names);
      var ft := disk[dir];
      var it := disk[ft.inode];
      var pino := disk[parent].inode;
      var itparent := disk[pino];
      RmdirRec(it.index, At(tree, names).kids);
      disk[ft.inode] := Free;
      disk[dir] := Free;
      disk[pino] := Inode(Erased(itparent.index, Position(itparent.index, dir)));
      RemovedBlocks(tree, names);
    }

    method Rmdir(names: Path) returns (r: Reply)
      requires Valid()
      modifies disk, `tree
      ensures r == RmdirReply(old(tree), names)
      ensures At(old(tree), names).Entry? && At(old(tree), names).data == [] ==> r == Code(0)
      ensures Allowed(old(View()), Call.Rmdir(names)) ==> Valid() && View() == Do(old(View()), Call.Rmdir(names))
      ensures r.Code? && r != Code(0) ==> disk[..] == old(disk[..]) && tree == old(tree) && Valid()
      ensures r == Code(0) ==>
        && At(old(tree), names).Entry? && At(old(tree), Up(names)).Entry?
        && disk[..] == AfterRemoval(old(disk[..]), old(tree), names)
        && if names != [] then Valid() && tree == Remove(old(tree), names) else !SpellsTree(disk[..])
    {
      hide TreeOk, OnDisk, Blocks, Locate, At, FindPath, Remove, Lost, SpellsTree, AfterRemoval;
      RmdirReplies(disk[..], tree, names);
      var dir := Find(names);
      var parent := Find(if |names| == 0 then [] else names[..|names| - 1]);
      if dir.Missing? {
        return Code(-ENOENT);
      }
      if dir.Strayed? || dir.Forged? {
        return Undefined;
      }
      ghost var was, t := disk[..], tree;
      FoundFrom(was, t, names);
      var ft := disk[dir.block];
      if ft.kind == Regular && |disk[ft.inode].index| > 0 {
        return Undefined; // data blocks taken for file blocks
      }
      CutEntry(dir.block, parent.block, names);
      if names != [] {
        RemovalFreesSubtree(was, t, names);
        tree := Remove(t, names);
      } else {
        RmdirSafeIff(was, t, names);
      }
      r := Code(0);
    }
  }

  lemma KidsFacts(d: Forest)
    requires d.Entry? && TreeOk(d)
    ensures TreeOk(d.kids) && |d.words| == |d.data|
    ensures if d.kind == Regular then d.kids == Nil else d.data == []
  {
  }

  lemma FirstAndRest(disk: Disk, g: Forest)
    requires g.Entry? && TreeOk(g) && OnDisk(disk, g)
    ensures TreeOk(g.kids) && TreeOk(g.rest) && OnDisk(disk, g.kids) && OnDisk(disk, g.rest) && EntryOn(disk, g)
    ensures Own(g) !! Blocks(g.kids) && Own(g) !! Blocks(g.rest) && Blocks(g.kids) !! Blocks(g.rest)
    ensures Blocks(g) == Own(g) + Blocks(g.kids) + Blocks(g.rest)
    ensures if g.kind == Regular then g.kids == Nil else g.data == []
    ensures forall b :: b in Blocks(g.rest) ==> b < |disk|
    ensures Size(g) > Size(g.kids) && Size(g) > Size(g.rest)
  {
    BlocksOnDisk(disk, g.rest);
  }

  lemma NilBlocks(g: Forest)
    ensures g.Nil? ==> Blocks(g) == {}
  {
  }

  lemma EmptyFiles(g: Forest)
    ensures Files(g) == [] ==> g.Nil? && Blocks(g) == {}
  {
  }

  /** Without data, the list of an entry is that of its children. */
  lemma EmptyIndex(t: Forest, names: Path)
    requires TreeOk(Root(t)) && At(t, names).Entry? && At(t, names).data == []
    ensures IndexOf(At(t, names)) == Files(At(t, names).kids)
    ensures Own(At(t, names)) == {At(t, names).blk, At(t, names).ino}
  {
    NoWordsInDirectory(t, names);
  }

  lemma RemovedBlocks(t: Forest, names: Path)
    requires TreeOk(Root(t)) && At(t, names).Entry?
    ensures var e := At(t, names);
      && SubtreeBlocks(t, names) == Own(e) + Blocks(e.kids)
      && At(t, Up(names)).Entry? && At(t, Up(names)).ino !in SubtreeBlocks(t, names) - {e.ino}
  {
    LocateBlocks(Root(t), Full(names));
    if names == [] {
      RootEntry(t);
    } else {
      ParentOf(t, names);
    }
  }
}
