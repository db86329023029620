/**
 * What each call of the file system returns and does, as functions of the disk and the tree,
 * and what holds after every sequence of calls.
 */
module FileCalls {
  import opened Common
  import opened StaticVectors
  import opened LeastNumber
  import opened FsTree
  import opened FileFind
  import opened DiskSteps

  const EEXIST: int := 2
  const ENOENT: int := 3
  const ENOTDIR: int := 4

  /** A call returns a code, or does something the language leaves undefined. */
  datatype Reply = Code(c: int) | Undefined

  /** The free blocks that HDD::search collects; it looks at the first ten blocks only. */
  function FirstFree(disk: Disk, i: nat, want: nat): seq<nat>
    requires |disk| == 100 && i <= 10
    decreases 10 - i
  {
    if want == 0 || i == 10 then []
    else if disk[i] == Free then [i] + FirstFree(disk, i + 1, want - 1)
    else FirstFree(disk, i + 1, want)
  }

  lemma {:induction false} FirstFreeLaw(disk: Disk, i: nat, want: nat)
    requires |disk| == 100 && i <= 10
    ensures var r := FirstFree(disk, i, want);
      && |r| <= want
      && (forall k :: 0 <= k < |r| ==> i <= r[k] < 10 && disk[r[k]] == Free)
      && (forall k, l :: 0 <= k < l < |r| ==> r[k] < r[l])
      && (forall b :: i <= b < 10 && disk[b] == Free ==>
            b in r || (|r| == want && forall k :: 0 <= k < |r| ==> r[k] < b))
    decreases 10 - i
  {
    hide FirstFree;
    if want > 0 && i < 10 {
      FirstFreeStep(disk, i, want);
      FirstFreeLaw(disk, i + 1, if disk[i] == Free then want - 1 else want);
    } else if want == 0 {
      NoneLeft(disk, i);
    } else {
      AtTen(disk, want);
    }
  }

  lemma FirstFreeStep(disk: Disk, i: nat, want: nat)
    requires |disk| == 100 && i < 10 && want > 0
    ensures FirstFree(disk, i, want) ==
      if disk[i] == Free then [i] + FirstFree(disk, i + 1, want - 1) else FirstFree(disk, i + 1, want)
  {
  }

  lemma NoneLeft(disk: Disk, i: nat)
    requires |disk| == 100 && i <= 10
    ensures FirstFree(disk, i, 0) == []
  {
  }

  lemma AtTen(disk: Disk, want: nat)
    requires |disk| == 100
    ensures FirstFree(disk, 10, want) == []
  {
  }

  predicate Room(disk: Disk)
    requires |disk| == 100
  {
    |FirstFree(disk, 0, 2)| == 2
  }

  /** The two blocks a new file gets are the lowest free ones; there is no room exactly when fewer are free. */
  lemma RoomIffTwoFree(disk: Disk)
    requires |disk| == 100
    ensures Room(disk) <==> exists a: nat, b: nat :: a < b < 10 && disk[a] == Free && disk[b] == Free
    ensures Room(disk) ==> TwoFree(disk, FirstFree(disk, 0, 2)[0], FirstFree(disk, 0, 2)[1])
  {
    var r := FirstFree(disk, 0, 2);
    FirstFreeLaw(disk, 0, 2);
    if a: nat, b: nat :| a < b < 10 && disk[a] == Free && disk[b] == Free {
      assert |r| < 2 ==> a in r && b in r;
    }
    if |r| == 2 {
      assert r[0] < r[1] < 10 && disk[r[0]] == Free && disk[r[1]] == Free;
    }
  }

  function CreateReply(disk: Disk, t: Forest, names: Path): Reply
    requires |disk| == 100
  {
    match FindPath(t, names)
    case Found(_) => Code(-EEXIST)
    case Strayed | Forged => Undefined
    case Missing =>
      if names == [] || !FindPath(t, Parent(names)).Found? then Undefined
      else if At(t, Parent(names)).Entry? && At(t, Parent(names)).kind == Regular then Code(-ENOTDIR)
      else if !Room(disk) then Code(-EEXIST)
      else Code(0)
  }

  /** mkdir of the root passes the test for existing files, and goes on with the root as its parent. */
  function MkdirReply(disk: Disk, t: Forest, names: Path): Reply
    requires |disk| == 100
  {
    if names == [] then Code(if Room(disk) then 0 else -EEXIST)
    else match FindPath(t, names)
      case Found(_) => Code(EEXIST)
      case Strayed | Forged => Undefined
      case Missing =>
        match FindPath(t, Parent(names))
        case Missing => Code(-ENOENT)
        case Strayed | Forged => Undefined
        case Found(_) => if Room(disk) then Code(0) else Code(-EEXIST)
  }

  /** Whether the new parent was found is not asked. */
  function RenameReply(t: Forest, from: Path, to: Path): Reply {
    match FindPath(t, from)
    case Missing => Code(-ENOENT)
    case Strayed | Forged => Undefined
    case Found(_) =>
      match FindPath(t, to)
      case Found(_) => Code(EEXIST)
      case Strayed | Forged => Undefined
      case Missing => Code(0)
  }

  function RmdirReply(t: Forest, names: Path): Reply {
    match FindPath(t, names)
    case Missing => Code(-ENOENT)
    case Strayed | Forged => Undefined
    case Found(_) => if At(t, names).Entry? && At(t, names).data != [] then Undefined else Code(0)
  }

  lemma EmptyDisk(disk: Disk)
    requires |disk| == 100 && disk[0] == File(SLASH, Directory, 1) && disk[1] == Inode([])
    requires forall b :: 2 <= b < 100 ==> disk[b] == Free
    ensures FsOk(disk, Nil)
  {
    assert Own(Root(Nil)) == {0, 1};
    assert Blocks(Root(Nil)) == {0, 1};
    assert EntryOn(disk, Root(Nil));
  }

  lemma NoNamesFound(t: Forest, names: Path)
    requires !FindPath(t, names).Found?
    ensures names != []
  {
  }

  lemma FoundIsNotRoot(t: Forest, names: Path)
    requires TreeOk(Root(t)) && names != [] && FindPath(t, names).Found?
    ensures FindPath(t, names).block > 0
  {
    FindRefinesLookup(t, names, FindPath(t, names).block);
    var e := Locate(t, names);
    LocateBlocks(t, names);
    assert e.blk in Own(e) && 0 in Own(Root(t));
  }

  lemma ParentOnDisk(disk: Disk, t: Forest, dir: Path)
    requires FsOk(disk, t) && At(t, dir).Entry?
    ensures var d := At(t, dir);
      && d.blk < 100 && d.ino < 100 && disk[d.blk] == File(d.name, d.kind, d.ino)
      && disk[d.ino] == Inode(IndexOf(d)) && |Files(d.kids)| <= 50 && (d.kind == Regular ==> d.kids == Nil)
  {
    LocateOnDisk(disk, Root(t), Full(dir));
    LocateBlocks(Root(t), Full(dir));
    ListsNeverFill(disk, t, Full(dir));
  }

  /** A path that find finds, and its parent, on the disk. */
  lemma FoundFrom(disk: Disk, t: Forest, names: Path)
    requires FsOk(disk, t) && FindPath(t, names).Found?
    ensures var e, p := At(t, names), At(t, Up(names));
      && e.Entry? && FindPath(t, names) == Found(e.blk) && p.Entry? && FindPath(t, Up(names)) == Found(p.blk)
      && e.blk < 100 && p.blk < 100 && e.ino < 100 && p.ino < 100
      && disk[e.blk] == File(e.name, e.kind, e.ino) && disk[p.blk] == File(p.name, Directory, p.ino)
      && disk[e.ino] == Inode(IndexOf(e)) && disk[p.ino] == Inode(Files(p.kids))
      && OnDisk(disk, e.kids) && TreeOk(e.kids) && (e.kind == Directory ==> e.data == [])
      && (e.kind == Regular ==> e.kids == Nil)
  {
    FindRefinesLookup(t, names, FindPath(t, names).block);
    if names == [] {
      RootEntry(t);
    } else {
      ParentOf(t, names);
    }
    FindRefinesLookup(t, Up(names), At(t, Up(names)).blk);
    LocateOnDisk(disk, Root(t), Full(names));
    LocateOnDisk(disk, Root(t), Full(Up(names)));
    LocateBlocks(Root(t), Full(names));
  }

  // ---------- what the replies mean ----------

  /**
   * In an existing directory the replies are settled by two questions: is the name there, and
   * are two of the first ten blocks free.  The two calls report an existing name with different signs.
   */
  lemma RepliesInDirectory(disk: Disk, t: Forest, names: Path)
    requires FsOk(disk, t) && names != [] && IsDirectory(t, Parent(names))
    ensures CreateReply(disk, t, names) == Code(if At(t, names).Entry? || !Room(disk) then -EEXIST else 0)
    ensures MkdirReply(disk, t, names) ==
      Code(if At(t, names).Entry? then EEXIST else if !Room(disk) then -EEXIST else 0)
    ensures At(t, names).Nil? ==> RmdirReply(t, names) == Code(-ENOENT)
  {
    hide TreeOk, OnDisk, Locate, Blocks, At;
    FindInDirectory(t, names);
    FindRefinesLookup(t, Parent(names), At(t, Parent(names)).blk);
    AtIsLookup(t, Parent(names));
  }

  lemma AtIsLookup(t: Forest, names: Path)
    requires At(t, names).Entry?
    ensures Lookup(Root(t), Full(names)).Some? && Lookup(Root(t), Full(names)).value.blk == At(t, names).blk
  {
  }

  /** Between existing directories, rename goes ahead if and only if the old name is there and the new one is not. */
  lemma RenameInDirectories(disk: Disk, t: Forest, from: Path, to: Path)
    requires FsOk(disk, t) && from != [] && to != [] && IsDirectory(t, Parent(from)) && IsDirectory(t, Parent(to))
    ensures RenameReply(t, from, to) ==
      Code(if At(t, from).Nil? then -ENOENT else if At(t, to).Entry? then EEXIST else 0)
  {
    hide TreeOk, OnDisk, Locate, Blocks, At;
    FindInDirectory(t, from);
    FindInDirectory(t, to);
    FindRefinesLookup(t, Parent(to), At(t, Parent(to)).blk);
    AtIsLookup(t, Parent(to));
  }

  // ---------- when the calls are defined ----------

  /** The walk to these names ends without a return, or goes by the bytes of a data block. */
  ghost predicate Lost(t: Forest, names: Path) {
    Strays(Root(t), names) || Forges(Root(t), names)
  }

  lemma LostIff(t: Forest, names: Path)
    requires TreeOk(Root(t))
    ensures Lost(t, names) <==> FindPath(t, names) == Strayed || FindPath(t, names) == Forged
  {
    hide TreeOk;
    if names != [] {
      StrayedIffStrays(Root(t), names);
      ForgedIffForges(Root(t), names);
    }
  }

  /** create is defined for the root, and wherever the parent exists and none of its data spells the name. */
  lemma CreateDefinedIff(disk: Disk, t: Forest, names: Path)
    requires FsOk(disk, t)
    ensures CreateReply(disk, t, names).Code? <==>
      names == [] || (At(t, Parent(names)).Entry? && Last(names) !in At(t, Parent(names)).words)
  {
    hide TreeOk, OnDisk, Locate, Blocks, At;
    if names != [] {
      var d := At(t, Parent(names));
      if d.Entry? {
        FindThroughParent(t, names);
        FindRefinesLookup(t, Parent(names), d.blk);
        AtIsLookup(t, Parent(names));
      } else {
        NothingBelow(t, names);
        if FindPath(t, names) == Missing {
          MissingParent(t, names);
        }
      }
    }
  }

  lemma NothingBelow(t: Forest, names: Path)
    requires TreeOk(Root(t)) && names != [] && At(t, Parent(names)).Nil?
    ensures !FindPath(t, names).Found?
  {
    FindInIsLocate(Root(t), names);
    LocateParent(Root(t), Full(names));
    assert Parent(Full(names)) == Full(Parent(names));
  }

  /** mkdir is defined wherever its walk is not lost. */
  lemma MkdirDefinedIff(disk: Disk, t: Forest, names: Path)
    requires FsOk(disk, t)
    ensures MkdirReply(disk, t, names).Code? <==> !Lost(t, names)
  {
    hide TreeOk, OnDisk, Blocks, Lost;
    LostIff(t, names);
    if names != [] && FindPath(t, names) == Missing {
      MissingParent(t, names);
    }
  }

  /** rename is defined if the walk to the old path is not lost, nor that to the new one if it is taken. */
  lemma RenameDefinedIff(disk: Disk, t: Forest, from: Path, to: Path)
    requires FsOk(disk, t)
    ensures RenameReply(t, from, to).Code? <==> !Lost(t, from) && (At(t, from).Nil? || !Lost(t, to))
  {
    hide TreeOk, OnDisk, Blocks, Lost;
    LostIff(t, from);
    LostIff(t, to);
    FoundIsEntry(t, from);
  }

  lemma FoundIsEntry(t: Forest, names: Path)
    requires TreeOk(Root(t))
    ensures FindPath(t, names).Found? <==> At(t, names).Entry?
  {
    if names == [] {
      RootEntry(t);
    } else {
      FindInIsLocate(Root(t), names);
    }
  }

  /** rmdir is defined if its walk is not lost and does not end at a file with data. */
  lemma RmdirDefinedIff(disk: Disk, t: Forest, names: Path)
    requires FsOk(disk, t)
    ensures RmdirReply(t, names).Code? <==> !Lost(t, names) && (At(t, names).Entry? ==> At(t, names).data == [])
  {
    hide TreeOk, OnDisk, Blocks, Lost;
    LostIff(t, names);
    FoundIsEntry(t, names);
  }

  // ---------- every reply ----------

  /** create: 2 an existing name or no room, 4 a parent that is a file; all codes are negative. */
  lemma CreateReplies(disk: Disk, t: Forest, names: Path)
    requires FsOk(disk, t)
    ensures CreateReply(disk, t, names) ==
      if names == [] then Code(-2)
      else
        var d := At(t, Parent(names));
        if d.Nil? || Last(names) in d.words then Undefined
        else if d.kind == Regular then Code(-4)
        else Code(if At(t, names).Entry? || !Room(disk) then -2 else 0)
  {
    hide TreeOk, OnDisk, Locate, Blocks, At;
    CreateDefinedIff(disk, t, names);
    if names != [] && At(t, Parent(names)).Entry? {
      var dir := Parent(names);
      FindThroughParent(t, names);
      FoundIsEntry(t, names);
      FindRefinesLookup(t, dir, At(t, dir).blk);
      AtIsLookup(t, dir);
      if At(t, dir).kind == Regular {
        NothingInFile(t, names);
      }
    }
  }

  lemma NothingInFile(t: Forest, names: Path)
    requires TreeOk(Root(t)) && names != [] && At(t, Parent(names)).Entry? && At(t, Parent(names)).kind == Regular
    ensures At(t, names).Nil?
  {
    NoWordsInDirectory(t, Parent(names));
    assert Full(names) == Full(Parent(names)) + [Last(names)];
    LocateStep(Root(t), Full(Parent(names)), [Last(names)]);
  }

  /** mkdir: an existing name is reported as 2, a missing parent as -3, no room as -2. */
  lemma MkdirReplies(disk: Disk, t: Forest, names: Path)
    requires FsOk(disk, t)
    ensures MkdirReply(disk, t, names) ==
      if Lost(t, names) then Undefined
      else if names != [] && At(t, names).Entry? then Code(2)
      else if names != [] && At(t, Parent(names)).Nil? then Code(-3)
      else Code(if Room(disk) then 0 else -2)
  {
    hide TreeOk, OnDisk, Blocks, Lost, At;
    LostIff(t, names);
    FoundIsEntry(t, names);
    if names != [] && FindPath(t, names) == Missing {
      MissingParent(t, names);
    }
  }

  /** rename: a missing old name is reported as -3, a new one that is there as 2. */
  lemma RenameReplies(disk: Disk, t: Forest, from: Path, to: Path)
    requires FsOk(disk, t)
    ensures RenameReply(t, from, to) ==
      if Lost(t, from) then Undefined
      else if At(t, from).Nil? then Code(-3)
      else if Lost(t, to) then Undefined
      else Code(if At(t, to).Entry? then 2 else 0)
  {
    hide TreeOk, OnDisk, Blocks, Lost, At;
    LostIff(t, from);
    LostIff(t, to);
    FoundIsEntry(t, from);
    FoundIsEntry(t, to);
  }

  /** rmdir removes whatever is there, empty or not, but for files with data. */
  lemma RmdirReplies(disk: Disk, t: Forest, names: Path)
    requires FsOk(disk, t)
    ensures RmdirReply(t, names) == Code(0) <==> At(t, names).Entry? && At(t, names).data == []
    ensures RmdirReply(t, names) == Code(-3) <==> At(t, names).Nil? && !Lost(t, names)
    ensures RmdirReply(t, names) in {Code(0), Code(-3), Undefined}
  {
    hide TreeOk, OnDisk, Blocks, Lost, At;
    LostIff(t, names);
    FoundIsEntry(t, names);
  }

  // ---------- the checks that are missing ----------

  /** rename writes exactly when its finds return, the old path is found and the new one is missing. */
  lemma MoveFacts(disk: Disk, t: Forest, from: Path, to: Path)
    requires FsOk(disk, t) && RenameReply(t, from, to) == Code(0)
    ensures Renames(disk, t, from, to)
    ensures At(t, Up(from)).Entry? && At(t, from).blk < 100 && At(t, Up(from)).ino < 100
    ensures At(t, Parent(to)).Entry? ==> At(t, Parent(to)).ino < 100
  {
    hide TreeOk, OnDisk, At;
    NoNamesFound(t, to);
    FoundIsEntry(t, from);
    FoundIsEntry(t, to);
    RenameBlocks(disk, t, from, to);
  }

  /**
   * rename asks for none of the three things it needs.  When it goes ahead, the disk is sure to
   * spell a tree afterwards if and only if the new parent exists, is a directory, and does not
   * move along, as it does when the root is to move.  (No name is a slash: see PathNames.)
   */
  lemma RenameSafeIff(disk: Disk, t: Forest, from: Path, to: Path)
    requires FsOk(disk, t) && RenameReply(t, from, to) == Code(0) && SLASH !in to
    ensures Renames(disk, t, from, to) && At(t, Up(from)).Entry?
    ensures At(t, from).blk < 100 && At(t, Up(from)).ino < 100
    ensures At(t, Parent(to)).Entry? ==> At(t, Parent(to)).ino < 100
    ensures (forall stray :: SpellsTree(AfterRename(disk, t, from, to, stray))) <==>
      At(t, Parent(to)).Entry? && At(t, Parent(to)).kind == Directory && !Under(from, Parent(to))
  {
    hide FsOk, AfterRename, SpellsTree;
    MoveFacts(disk, t, from, to);
    RenameKeepsTreeIffSound(disk, t, from, to);
  }

  /** rmdir does not ask whether it is to remove the root; the disk spells a tree afterwards if it is not. */
  lemma RmdirSafeIff(disk: Disk, t: Forest, names: Path)
    requires FsOk(disk, t) && RmdirReply(t, names) == Code(0)
    ensures At(t, names).Entry? && At(t, Up(names)).Entry?
    ensures SpellsTree(AfterRemoval(disk, t, names)) <==> names != []
  {
    hide TreeOk, OnDisk, Blocks, AfterRemoval, At;
    FoundFrom(disk, t, names);
    if names == [] {
      forall u ensures !FsOk(AfterRemoval(disk, t, names), u) {
        RemovalOfRoot(disk, t, u);
      }
    } else {
      RemovalFreesSubtree(disk, t, names);
    }
  }

  /** What mkdir calls its entry: for the root, whatever name it reads. */
  function MkdirName(names: Path, garbage: string): string {
    if names == [] then garbage else Last(names)
  }

  lemma MkdirFacts(disk: Disk, t: Forest, names: Path)
    requires FsOk(disk, t) && MkdirReply(disk, t, names) == Code(0)
    ensures var d := At(t, Up(names));
      && d.Entry? && d.ino < 100 && FindPath(t, Up(names)) == Found(d.blk)
      && (names != [] ==> !HasName(d.kids, Last(names)))
    ensures TwoFree(disk, FirstFree(disk, 0, 2)[0], FirstFree(disk, 0, 2)[1])
  {
    hide FirstFree, TreeOk, OnDisk, At;
    RoomIffTwoFree(disk);
    if names == [] {
      RootEntry(t);
    } else {
      MissingFrom(t, names);
    }
    ParentOnDisk(disk, t, Up(names));
  }

  /** The disk after mkdir; garbage is the name read before the start of an empty vector. */
  ghost function AfterMkdir(disk: Disk, t: Forest, names: Path, garbage: string): Disk
    requires FsOk(disk, t)
  {
    if MkdirReply(disk, t, names) != Code(0) then disk
    else
      MkdirFacts(disk, t, names);
      var free := FirstFree(disk, 0, 2);
      AfterNew(disk, At(t, Up(names)), MkdirName(names, garbage), Directory, free[0], free[1])
  }

  /** The tree that was asked for: with the new directory, if it can be had, or as it was. */
  ghost function Asked(disk: Disk, t: Forest, names: Path): Forest
    requires FsOk(disk, t)
  {
    if MkdirReply(disk, t, names) == Code(0) && names != [] && IsDirectory(t, Parent(names)) then
      MkdirFacts(disk, t, names);
      var free := FirstFree(disk, 0, 2);
      Join(t, Parent(names), NewEntry(Last(names), Directory, free[0], free[1]))
    else t
  }

  /**
   * mkdir asks neither whether it is to make the root nor whether the parent is a directory.
   * Over all calls whose walk is not lost, the disk spells the tree asked for if and only if the
   * call is refused, or both hold.
   */
  lemma MkdirSafeIff(disk: Disk, t: Forest, names: Path, garbage: string)
    requires FsOk(disk, t) && !Lost(t, names)
    ensures FsOk(AfterMkdir(disk, t, names, garbage), Asked(disk, t, names)) <==>
      (MkdirReply(disk, t, names) == Code(0) ==> names != [] && IsDirectory(t, Parent(names)))
  {
    hide TreeOk, OnDisk, Blocks, Join, FirstFree, At;
    if MkdirReply(disk, t, names) == Code(0) {
      MkdirFacts(disk, t, names);
      var free := FirstFree(disk, 0, 2);
      if names == [] {
        RootEntry(t);
        assert AfterMkdir(disk, t, names, garbage)[free[0]] != Free;
      } else if IsDirectory(t, Parent(names)) {
        NewEntryJoins(disk, t, Parent(names), Last(names), Directory, free[0], free[1]);
      } else {
        NewInFile(disk, t, Parent(names), Last(names), Directory, free[0], free[1], t);
      }
    }
  }

  /** A file "a", with a data block, and an empty directory "d" below the root. */
  function SampleTree(): Forest {
    Entry("a", Regular, 2, 3, [6], [""], Nil, Entry("d", Directory, 4, 5, [], [], Nil, Nil))
  }

  function SampleDisk(): Disk {
    [File(SLASH, Directory, 1), Inode([2, 4]), File("a", Regular, 3), Inode([6]), File("d", Directory, 5), Inode([])]
    + [Data("")] + seq(93, _ => Free)
  }

  lemma SampleOk()
    ensures FsOk(SampleDisk(), SampleTree())
  {
    hide TreeOk, OnDisk, Blocks;
    SampleBlocks();
    SampleOnDisk();
  }

  lemma SampleBlocks()
    ensures TreeOk(Root(SampleTree())) && Blocks(Root(SampleTree())) == {0, 1, 2, 3, 4, 5, 6}
  {
    var d := Entry("d", Directory, 4, 5, [], [], Nil, Nil);
    var t := SampleTree();
    assert Own(d) == {4, 5} && Own(t) == {2, 3, 6} && Own(Root(t)) == {0, 1};
    assert Blocks(d) == {4, 5};
    assert Blocks(t) == {2, 3, 4, 5, 6};
  }

  lemma SampleOnDisk()
    ensures OnDisk(SampleDisk(), Root(SampleTree()))
  {
    var d := Entry("d", Directory, 4, 5, [], [], Nil, Nil);
    var t := SampleTree();
    assert Files(d) == [4] && Files(t) == [2, 4];
    assert NameIn("") == "";
    assert OnDisk(SampleDisk(), d);
    assert OnDisk(SampleDisk(), t);
  }

  /** A rename that returns 0 and leaves a disk that spells no tree. */
  ghost predicate Breaks(disk: Disk, t: Forest, from: Path, to: Path, stray: Stray) {
    && FsOk(disk, t) && RenameReply(t, from, to) == Code(0)
    && (MoveFacts(disk, t, from, to); !SpellsTree(AfterRename(disk, t, from, to, stray)))
  }

  lemma BreaksUnlessSafe(disk: Disk, t: Forest, from: Path, to: Path)
    requires FsOk(disk, t) && RenameReply(t, from, to) == Code(0) && to != [] && !Sound(t, from, to) && SLASH !in to
    ensures Breaks(disk, t, from, to, Stray(-1, Free))
  {
    hide TreeOk, OnDisk, Blocks, AfterRename, At;
    MoveFacts(disk, t, from, to);
    RenameKeepsTreeIffSound(disk, t, from, to);
  }

  /**
   * The failing calls on that disk: rename of "a" below a directory that does not exist (even
   * if the stray write does no harm), of "d" into itself, of "d" into the file, and of the root;
   * mkdir of the root, which adds an entry to a tree that was to stay as it is, and in the file;
   * rmdir of the root.
   */
  lemma FailingCalls(garbage: string)
    ensures Breaks(SampleDisk(), SampleTree(), ["a"], ["d", "x", "b"], Stray(-1, Free))
    ensures Breaks(SampleDisk(), SampleTree(), ["d"], ["d", "e"], Stray(-1, Free))
    ensures Breaks(SampleDisk(), SampleTree(), ["d"], ["a", "e"], Stray(-1, Free))
    ensures Breaks(SampleDisk(), SampleTree(), [], ["b"], Stray(-1, Free))
    ensures FsOk(SampleDisk(), SampleTree()) && MkdirReply(SampleDisk(), SampleTree(), []) == Code(0)
    ensures !FsOk(AfterMkdir(SampleDisk(), SampleTree(), [], garbage), SampleTree())
    ensures MkdirReply(SampleDisk(), SampleTree(), ["a", "e"]) == Code(0)
    ensures !FsOk(AfterMkdir(SampleDisk(), SampleTree(), ["a", "e"], garbage), SampleTree())
    ensures RmdirReply(SampleTree(), []) == Code(0) && At(SampleTree(), []).Entry?
    ensures !SpellsTree(AfterRemoval(SampleDisk(), SampleTree(), []))
  {
    hide FindPath, At, Breaks, FsOk, AfterMkdir, AfterRename, Lost, AfterRemoval;
    var disk, t := SampleDisk(), SampleTree();
    SampleOk();
    Lookups();
    RootEntry(t);
    BreaksUnlessSafe(disk, t, ["a"], ["d", "x", "b"]);
    BreaksUnlessSafe(disk, t, ["d"], ["d", "e"]);
    BreaksUnlessSafe(disk, t, ["d"], ["a", "e"]);
    BreaksUnlessSafe(disk, t, [], ["b"]);
    SampleRoom();
    LostIff(t, []);
    MkdirSafeIff(disk, t, [], garbage);
    LostIff(t, ["a", "e"]);
    MkdirSafeIff(disk, t, ["a", "e"], garbage);
    RmdirSafeIff(disk, t, []);
  }

  lemma SampleRoom()
    ensures Room(SampleDisk())
  {
    assert SampleDisk()[7] == Free && SampleDisk()[8] == Free;
    RoomIffTwoFree(SampleDisk());
  }

  lemma Lookups()
    ensures var t := SampleTree();
      && FindPath(t, ["a"]) == Found(2) && FindPath(t, ["d"]) == Found(4)
      && FindPath(t, ["d", "x", "b"]) == FindPath(t, ["d", "e"]) == FindPath(t, ["a", "e"]) == Missing
      && !Sound(t, ["a"], ["d", "x", "b"]) && !Sound(t, ["d"], ["d", "e"]) && !Sound(t, ["d"], ["a", "e"])
      && !Sound(t, [], ["b"]) && FindPath(t, ["b"]) == Missing
      && Parent(["a", "e"]) == ["a"] && !IsDirectory(t, ["a"]) && At(t, []) == Root(t) && Root(t).data == []
  {
    var t := SampleTree();
    assert ["d", "x", "b"][1..] == ["x", "b"] && ["d", "e"][1..] == ["e"] && ["a", "e"][1..] == ["e"];
    assert ["d", "x"][1..] == ["x"] && Up(["a", "e"]) == Parent(["a", "e"]);
    assert Locate(t, ["a"]) == t && Locate(t, ["d"]) == t.rest;
    assert FindIn(t.rest, ["x", "b"]) == Missing;
    assert At(t, ["d", "x"]).Nil? && At(t, ["a"]).kind == Regular;
    assert Parent(["d", "x", "b"]) == ["d", "x"] && Parent(["d", "e"]) == ["d"] && Parent(["a", "e"]) == ["a"];
  }

  // ---------- runs ----------

  datatype State = State(disk: Disk, tree: Forest)

  ghost predicate StateOk(s: State) {
    FsOk(s.disk, s.tree)
  }

  datatype Call = Create(names: Path) | Mkdir(names: Path) | Rename(from: Path, to: Path) | Rmdir(names: Path)

  /** The calls with a defined reply that do not get past a check the source lacks; no root is moved or removed. */
  ghost predicate Allowed(s: State, c: Call)
    requires StateOk(s)
  {
    match c
    case Create(names) => CreateReply(s.disk, s.tree, names).Code?
    case Mkdir(names) =>
      && MkdirReply(s.disk, s.tree, names).Code?
      && (MkdirReply(s.disk, s.tree, names) == Code(0) ==> names != [] && IsDirectory(s.tree, Parent(names)))
    case Rename(from, to) =>
      && RenameReply(s.tree, from, to).Code?
      && (RenameReply(s.tree, from, to) == Code(0) ==> to != [] && Sound(s.tree, from, to))
    case Rmdir(names) =>
      RmdirReply(s.tree, names).Code? && (RmdirReply(s.tree, names) == Code(0) ==> names != [])
  }

  lemma NewFacts(s: State, names: Path)
    requires StateOk(s) && FindPath(s.tree, names) == Missing && FindPath(s.tree, Parent(names)).Found? && Room(s.disk)
    ensures names != [] && At(s.tree, Parent(names)).Entry? && At(s.tree, Parent(names)).ino < 100
    ensures TwoFree(s.disk, FirstFree(s.disk, 0, 2)[0], FirstFree(s.disk, 0, 2)[1])
    ensures FirstFree(s.disk, 0, 2)[0] < 10 && FirstFree(s.disk, 0, 2)[1] < 10
    ensures !HasName(At(s.tree, Parent(names)).kids, Last(names))
  {
    hide FirstFree, TreeOk, OnDisk, At;
    NoNamesFound(s.tree, names);
    MissingFrom(s.tree, names);
    ParentOnDisk(s.disk, s.tree, Parent(names));
    RoomIffTwoFree(s.disk);
    FirstFreeLaw(s.disk, 0, 2);
  }

  ghost function WithNew(s: State, names: Path, kind: Kind): State
    requires StateOk(s) && FindPath(s.tree, names) == Missing && FindPath(s.tree, Parent(names)).Found? && Room(s.disk)
  {
    NewFacts(s, names);
    var free, dir := FirstFree(s.disk, 0, 2), Parent(names);
    State(AfterNew(s.disk, At(s.tree, dir), Last(names), kind, free[0], free[1]),
      Join(s.tree, dir, NewEntry(Last(names), kind, free[0], free[1])))
  }

  ghost function WithMoved(s: State, from: Path, to: Path): State
    requires StateOk(s) && RenameReply(s.tree, from, to) == Code(0) && to != [] && Sound(s.tree, from, to)
  {
    MoveFacts(s.disk, s.tree, from, to);
    State(AfterRename(s.disk, s.tree, from, to, Stray(-1, Free)), MovedTree(s.tree, from, to))
  }

  ghost function WithRemoved(s: State, names: Path): State
    requires StateOk(s) && names != [] && RmdirReply(s.tree, names) == Code(0)
  {
    FoundFrom(s.disk, s.tree, names);
    State(AfterRemoval(s.disk, s.tree, names), Remove(s.tree, names))
  }

  /** A call: without success it changes nothing. */
  ghost function Do(s: State, c: Call): State
    requires StateOk(s) && Allowed(s, c)
  {
    match c
    case Create(names) =>
      if CreateReply(s.disk, s.tree, names) == Code(0) then WithNew(s, names, Regular) else s
    case Mkdir(names) =>
      if MkdirReply(s.disk, s.tree, names) == Code(0) then WithNew(s, names, Directory) else s
    case Rename(from, to) =>
      if RenameReply(s.tree, from, to) == Code(0) then WithMoved(s, from, to) else s
    case Rmdir(names) =>
      if RmdirReply(s.tree, names) == Code(0) then WithRemoved(s, names) else s
  }

  /** The blocks in use, the root's two included. */
  ghost function InUse(s: State): set<nat> {
    Blocks(Root(s.tree))
  }

  lemma NewKeeps(s: State, names: Path, kind: Kind)
    requires StateOk(s) && FindPath(s.tree, names) == Missing && FindPath(s.tree, Parent(names)).Found? && Room(s.disk)
    requires IsDirectory(s.tree, Parent(names))
    ensures StateOk(WithNew(s, names, kind))
    ensures InUse(s) <= InUse(WithNew(s, names, kind)) && |InUse(WithNew(s, names, kind))| == |InUse(s)| + 2
    ensures forall b :: b in InUse(WithNew(s, names, kind)) ==> b in InUse(s) || b < 10
  {
    hide TreeOk, OnDisk, Blocks, At, Join, FirstFree, AfterNew;
    NewFacts(s, names);
    var free := FirstFree(s.disk, 0, 2);
    NewEntryJoins(s.disk, s.tree, Parent(names), Last(names), kind, free[0], free[1]);
    assert free[0] !in InUse(s) && free[1] !in InUse(s);
    assert InUse(WithNew(s, names, kind)) == InUse(s) + {free[0], free[1]};
  }

  /** Every call keeps the disk spelling a tree, and takes new blocks from the first ten only. */
  lemma CallKeepsState(s: State, c: Call)
    requires StateOk(s) && Allowed(s, c)
    ensures StateOk(Do(s, c))
    ensures forall b :: b in InUse(Do(s, c)) ==> b in InUse(s) || b < 10
  {
    hide TreeOk, OnDisk, Blocks, At, FindPath, WithNew, AfterRename, AfterRemoval;
    match c {
      case Create(names) =>
        if CreateReply(s.disk, s.tree, names) == Code(0) {
          CreateInDirectory(s, names);
          NewKeeps(s, names, Regular);
        }
      case Mkdir(names) =>
        if MkdirReply(s.disk, s.tree, names) == Code(0) {
          NewKeeps(s, names, Directory);
        }
      case Rename(from, to) =>
        if RenameReply(s.tree, from, to) == Code(0) {
          MoveFacts(s.disk, s.tree, from, to);
          RenameMovesTree(s.disk, s.tree, from, to, Stray(-1, Free));
        }
      case Rmdir(names) =>
        if RmdirReply(s.tree, names) == Code(0) {
          FoundFrom(s.disk, s.tree, names);
          RemovalFreesSubtree(s.disk, s.tree, names);
        }
    }
  }

  lemma CreateInDirectory(s: State, names: Path)
    requires StateOk(s) && CreateReply(s.disk, s.tree, names) == Code(0)
    ensures IsDirectory(s.tree, Parent(names))
  {
    NewFacts(s, names);
  }

  ghost predicate Runs(s: State, calls: seq<Call>)
    requires StateOk(s)
    decreases |calls|
  {
    calls == [] || (Allowed(s, calls[0]) && (CallKeepsState(s, calls[0]); Runs(Do(s, calls[0]), calls[1..])))
  }

  ghost function After(s: State, calls: seq<Call>): State
    requires StateOk(s) && Runs(s, calls)
    decreases |calls|
  {
    if calls == [] then s else
      CallKeepsState(s, calls[0]);
      After(Do(s, calls[0]), calls[1..])
  }

  lemma {:induction false} RunKeepsState(s: State, calls: seq<Call>)
    requires StateOk(s) && Runs(s, calls)
    ensures StateOk(After(s, calls))
    ensures forall b :: b in InUse(After(s, calls)) ==> b in InUse(s) || b < 10
    decreases |calls|
  {
    hide StateOk, InUse, Do, Allowed;
    if calls != [] {
      CallKeepsState(s, calls[0]);
      RunKeepsState(Do(s, calls[0]), calls[1..]);
    }
  }

  /** Files and directories of a forest, at all depths. */
  function Size(f: Forest): nat {
    if f.Nil? then 0 else 1 + Size(f.kids) + Size(f.rest)
  }

  lemma {:induction false} TwoBlocksPerNode(f: Forest)
    requires TreeOk(f)
    ensures 2 * Size(f) <= |Blocks(f)|
  {
    if f.Entry? {
      TwoBlocksPerNode(f.kids);
      TwoBlocksPerNode(f.rest);
      var own := {f.blk, f.ino};
      assert own <= Own(f);
      SubsetSize(own, Own(f));
      assert |Blocks(f)| == |Own(f)| + |Blocks(f.kids)| + |Blocks(f.rest)|;
    }
  }

  /**
   * Because the search for free blocks stops at the tenth, no run of calls from an empty file
   * system ever holds more than four files and directories.
   */
  lemma AtMostFour(s: State, calls: seq<Call>)
    requires StateOk(s) && s.tree == Nil && Runs(s, calls)
    ensures Size(After(s, calls).tree) <= 4
  {
    hide OnDisk, Runs, After, Blocks, Range;
    var t := After(s, calls).tree;
    RunKeepsState(s, calls);
    EmptyInUse(s);
    TwoBlocksPerNode(Root(t));
    RangeSize(0, 10);
    var used := InUse(After(s, calls));
    assert used == Blocks(Root(t));
    forall b | b in used ensures b in Range(0, 10) {
      assert b in InUse(s) ==> b == 0 || b == 1;
    }
    SubsetSize(Blocks(Root(t)), Range(0, 10));
  }

  lemma EmptyInUse(s: State)
    requires s.tree == Nil
    ensures InUse(s) == {0, 1}
  {
    assert Own(Root(Nil)) == {0, 1};
  }
}
