/**
 * What the walk of file_t::find (fs/file_t.cpp) makes of a tree, as a function.  The walk
 * has no return at its end, so some inputs have no defined result.
 */
module FileFind {
  import opened Common
  import opened StaticVectors
  import opened FsTree

  /**
   * A block; -1; the end of the function without a return; or what the bytes of a data block,
   * taken for a file block, lead to.
   */
  datatype FindResult = Found(block: nat) | Missing | Strayed | Forged

  /**
   * The walk from one entry.  Its assert that the entry is a directory only prints: in a file
   * the walk compares the name with what the data blocks spell.
   */
  function FindIn(d: Forest, path: Path): FindResult
    requires d.Entry? && path != []
    decreases |path|
  {
    if IndexOf(d) == [] then Missing
    else if d.kind == Regular then
      if path[0] in d.words then Forged else if |path| == 1 then Missing else Strayed
    else
      var c := Locate(d.kids, [path[0]]);
      if c.Nil? then (if |path| == 1 then Missing else Strayed)
      else if |path| == 1 then Found(c.blk)
      else FindIn(c, path[1..])
  }

  function FindPath(t: Forest, names: Path): FindResult {
    if names == [] then Found(0) else FindIn(Root(t), names)
  }

  /** Names below the root as a path of the tree. */
  function Full(names: Path): (p: Path)
    ensures p != [] && p[0] == SLASH && p[1..] == names
  {
    [SLASH] + names
  }

  /** The entry that names lead to; the root for no names. */
  function At(t: Forest, names: Path): Forest {
    Locate(Root(t), Full(names))
  }

  /** dirname: the root is its own parent. */
  function Up(names: Path): Path {
    if names == [] then [] else Parent(names)
  }

  lemma RootEntry(t: Forest)
    ensures At(t, []) == Root(t) && FindPath(t, []) == Found(0)
  {
  }

  lemma {:induction false} ChildIsKid(f: Forest, path: Path)
    requires path != []
    ensures Locate(f, path) ==
      var c := Locate(f, [path[0]]);
      if c.Nil? then Nil else if |path| == 1 then c else Locate(c.kids, path[1..])
  {
    assert path == [path[0]] + path[1..];
    if |path| > 1 {
      LocateStep(f, [path[0]], path[1..]);
    } else {
      assert path == [path[0]];
    }
  }

  lemma {:induction false} FindInIsLocate(d: Forest, path: Path)
    requires d.Entry? && TreeOk(d) && path != []
    ensures var e := Locate(d.kids, path);
      if e.Entry? then FindIn(d, path) == Found(e.blk) else !FindIn(d, path).Found?
    decreases |path|
  {
    ChildIsKid(d.kids, path);
    var c := Locate(d.kids, [path[0]]);
    if c.Entry? {
      LocateBlocks(d.kids, [path[0]]);
      if |path| > 1 {
        FindInIsLocate(c, path[1..]);
      }
    }
  }

  /** find reaches a block exactly when walking the tree does, and then the same one. */
  lemma FindRefinesLookup(t: Forest, names: Path, b: nat)
    requires TreeOk(Root(t))
    ensures FindPath(t, names) == Found(b) <==>
      Lookup(Root(t), Full(names)).Some? && Lookup(Root(t), Full(names)).value.blk == b
  {
    if names != [] {
      FindInIsLocate(Root(t), names);
      assert Locate(Root(t), Full(names)) == Locate(t, names);
    }
  }

  /** The entry at which the walk looks for name k. */
  function EntryAt(d: Forest, path: Path, k: nat): Forest
    requires d.Entry? && k <= |path|
  {
    if k == 0 then d else Locate(d.kids, path[..k])
  }

  /** The walk stands at an entry that is not empty and lacks the next name, which is not the last. */
  ghost predicate StrayAt(d: Forest, path: Path, k: nat)
    requires d.Entry? && k < |path|
  {
    var e := EntryAt(d, path, k);
    && e.Entry? && Locate(e.kids, [path[k]]).Nil? && IndexOf(e) != [] && path[k] !in e.words
    && k < |path| - 1
  }

  ghost predicate Strays(d: Forest, path: Path)
    requires d.Entry?
  {
    exists k: nat :: k < |path| && StrayAt(d, path, k)
  }

  /** The walk stands at a file one of whose data blocks spells the next name. */
  ghost predicate ForgeAt(d: Forest, path: Path, k: nat)
    requires d.Entry? && k < |path|
  {
    EntryAt(d, path, k).Entry? && path[k] in EntryAt(d, path, k).words
  }

  ghost predicate Forges(d: Forest, path: Path)
    requires d.Entry?
  {
    exists k: nat :: k < |path| && ForgeAt(d, path, k)
  }

  lemma EntryStep(d: Forest, path: Path, k: nat)
    requires d.Entry? && 0 < k < |path|
    ensures var c := Locate(d.kids, [path[0]]);
      EntryAt(d, path, k) == if c.Nil? then Nil else EntryAt(c, path[1..], k - 1)
  {
    ChildIsKid(d.kids, path[..k]);
    assert path[..k][1..] == path[1..][..k - 1];
    assert path[..k][0] == path[0];
  }

  lemma WordsInFiles(d: Forest)
    requires d.Entry? && TreeOk(d)
    ensures d.words != [] ==> d.kind == Regular && d.data != [] && d.kids == Nil
  {
  }

  /** The walk falls off its end exactly in that case. */
  lemma {:induction false} StrayedIffStrays(d: Forest, path: Path)
    requires d.Entry? && TreeOk(d) && path != []
    ensures FindIn(d, path) == Strayed <==> Strays(d, path)
    decreases |path|
  {
    hide TreeOk;
    WordsInFiles(d);
    var c := Locate(d.kids, [path[0]]);
    if c.Nil? {
      FileHasNoKids(d);
      assert FindIn(d, path) == Strayed <==> StrayAt(d, path, 0);
      forall k: nat | 0 < k < |path| ensures !StrayAt(d, path, k) {
        EntryStep(d, path, k);
      }
    } else {
      KidOk(d, path[0]);
      assert !StrayAt(d, path, 0);
      if |path| > 1 {
        StrayedIffStrays(c, path[1..]);
        forall k: nat | 0 < k < |path| ensures StrayAt(d, path, k) <==> StrayAt(c, path[1..], k - 1) {
          EntryStep(d, path, k);
        }
        if k: nat :| k < |path| - 1 && StrayAt(c, path[1..], k) {
          assert StrayAt(d, path, k + 1);
        }
      }
    }
  }

  /** It goes by the bytes of a data block exactly in the other one. */
  lemma {:induction false} ForgedIffForges(d: Forest, path: Path)
    requires d.Entry? && TreeOk(d) && path != []
    ensures FindIn(d, path) == Forged <==> Forges(d, path)
    decreases |path|
  {
    hide TreeOk;
    WordsInFiles(d);
    var c := Locate(d.kids, [path[0]]);
    if c.Nil? {
      FileHasNoKids(d);
      assert FindIn(d, path) == Forged <==> ForgeAt(d, path, 0);
      forall k: nat | 0 < k < |path| ensures !ForgeAt(d, path, k) {
        EntryStep(d, path, k);
      }
    } else {
      KidOk(d, path[0]);
      assert !ForgeAt(d, path, 0);
      if |path| > 1 {
        ForgedIffForges(c, path[1..]);
        forall k: nat | 0 < k < |path| ensures ForgeAt(d, path, k) <==> ForgeAt(c, path[1..], k - 1) {
          EntryStep(d, path, k);
        }
        if k: nat :| k < |path| - 1 && ForgeAt(c, path[1..], k) {
          assert ForgeAt(d, path, k + 1);
        }
      }
    }
  }

  lemma FileHasNoKids(d: Forest)
    requires d.Entry? && TreeOk(d)
    ensures d.kind == Regular ==> d.kids == Nil
    ensures d.kind == Directory ==> d.words == []
    ensures d.kids.Entry? ==> Files(d.kids) != []
  {
  }

  lemma KidOk(d: Forest, name: string)
    requires d.Entry? && TreeOk(d) && Locate(d.kids, [name]).Entry?
    ensures TreeOk(Locate(d.kids, [name])) && d.kind == Directory && IndexOf(d) != [] && d.words == []
  {
    LocateBlocks(d.kids, [name]);
  }

  /** A walk that strays or goes by data bytes loses its way above the last name or in its parent. */
  lemma WayIsLost(t: Forest, names: Path, k: nat)
    requires TreeOk(Root(t)) && k < |names| && (StrayAt(Root(t), names, k) || ForgeAt(Root(t), names, k))
    ensures k < |names| - 1 ==> At(t, Parent(names)).Nil?
    ensures k == |names| - 1 ==>
      EntryAt(Root(t), names, k) == At(t, Parent(names)) && ForgeAt(Root(t), names, k)
  {
    var dir := Parent(names);
    if k < |names| - 1 {
      assert dir == names[..k + 1] + dir[k + 1..];
      assert names[..k + 1] == names[..k] + [names[k]];
      NoKidNamed(t, names, k);
      if k > 0 {
        LocateStep(t, names[..k], [names[k]]);
      } else {
        assert names[..k + 1] == [names[k]];
      }
      assert Locate(t, names[..k + 1]) == Nil;
      if dir[k + 1..] != [] {
        LocateStep(t, names[..k + 1], dir[k + 1..]);
      } else {
        assert dir == names[..k + 1];
      }
    } else {
      assert dir == names[..k];
    }
  }

  lemma NoKidNamed(t: Forest, names: Path, k: nat)
    requires TreeOk(Root(t)) && k < |names| && (StrayAt(Root(t), names, k) || ForgeAt(Root(t), names, k))
    ensures Locate(EntryAt(Root(t), names, k).kids, [names[k]]).Nil?
  {
    if k > 0 {
      LocateBlocks(t, names[..k]);
    }
    FileHasNoKids(EntryAt(Root(t), names, k));
  }

  /**
   * Below an entry that exists the walk returns; it goes by data bytes exactly if that is a
   * file one of whose data blocks spells the name.
   */
  lemma FindThroughParent(t: Forest, names: Path)
    requires TreeOk(Root(t)) && names != [] && At(t, Parent(names)).Entry?
    ensures FindPath(t, names) != Strayed
    ensures FindPath(t, names) == Forged <==> Last(names) in At(t, Parent(names)).words
  {
    hide TreeOk, StrayAt, ForgeAt;
    StrayedIffStrays(Root(t), names);
    ForgedIffForges(Root(t), names);
    if k: nat :| k < |names| && StrayAt(Root(t), names, k) {
      WayIsLost(t, names, k);
      NotLastStray(Root(t), names);
    }
    if k: nat :| k < |names| && ForgeAt(Root(t), names, k) {
      WayIsLost(t, names, k);
      LastForge(t, names);
    }
    LastForge(t, names);
  }

  lemma NotLastStray(d: Forest, names: Path)
    requires d.Entry? && names != []
    ensures !StrayAt(d, names, |names| - 1)
  {
  }

  lemma LastForge(t: Forest, names: Path)
    requires names != [] && At(t, Parent(names)).Entry?
    ensures ForgeAt(Root(t), names, |names| - 1) <==> Last(names) in At(t, Parent(names)).words
  {
    assert names[..|names| - 1] == Parent(names);
  }

  /** With a directory to look in, find is defined: it tells whether the last name is there. */
  lemma FindInDirectory(t: Forest, names: Path)
    requires TreeOk(Root(t)) && names != []
    requires At(t, Parent(names)).Entry? && At(t, Parent(names)).kind == Directory
    ensures FindPath(t, names) ==
      var e := At(t, names);
      if e.Entry? then Found(e.blk) else Missing
  {
    hide TreeOk;
    FindInIsLocate(Root(t), names);
    FindThroughParent(t, names);
    NoWordsInDirectory(t, Parent(names));
  }

  lemma NoWordsInDirectory(t: Forest, dir: Path)
    requires TreeOk(Root(t)) && At(t, dir).Entry?
    ensures At(t, dir).kind == Directory ==> At(t, dir).data == [] && At(t, dir).words == []
    ensures At(t, dir).kind == Regular ==> At(t, dir).kids == Nil
  {
    LocateBlocks(Root(t), Full(dir));
  }

  /** What a missing name is missing from, if its parent is found. */
  lemma MissingFrom(t: Forest, names: Path)
    requires TreeOk(Root(t)) && names != [] && FindPath(t, names) == Missing
    requires FindPath(t, Parent(names)).Found?
    ensures var d := At(t, Parent(names));
      && d.Entry? && FindPath(t, Parent(names)) == Found(d.blk)
      && At(t, names).Nil? && !HasName(d.kids, Last(names)) && Last(names) !in d.words
  {
    hide TreeOk;
    var dir := Parent(names);
    FindRefinesLookup(t, dir, FindPath(t, dir).block);
    FindInIsLocate(Root(t), names);
    FindThroughParent(t, names);
    var d := At(t, dir);
    assert Full(names) == Full(dir) + [Last(names)];
    LocateStep(Root(t), Full(dir), [Last(names)]);
    ChildNamed(d.kids, Last(names));
  }

  lemma LostLonger(d: Forest, names: Path)
    requires d.Entry? && names != []
    ensures Strays(d, Parent(names)) ==> Strays(d, names)
    ensures Forges(d, Parent(names)) ==> Forges(d, names)
  {
    var dir := Parent(names);
    forall k: nat | k < |dir| ensures EntryAt(d, dir, k) == EntryAt(d, names, k) && dir[k] == names[k] {
      assert dir[..k] == names[..k];
    }
    if k: nat :| k < |dir| && StrayAt(d, dir, k) {
      assert StrayAt(d, names, k);
    }
    if k: nat :| k < |dir| && ForgeAt(d, dir, k) {
      assert ForgeAt(d, names, k);
    }
  }

  /** When a walk ends with "missing", the walk to its parent ends so or finds it. */
  lemma MissingParent(t: Forest, names: Path)
    requires TreeOk(Root(t)) && names != [] && FindPath(t, names) == Missing
    ensures FindPath(t, Parent(names)) != Strayed && FindPath(t, Parent(names)) != Forged
    ensures FindPath(t, Parent(names)).Found? <==> At(t, Parent(names)).Entry?
  {
    hide TreeOk, Strays, Forges;
    var dir := Parent(names);
    if dir != [] {
      LostLonger(Root(t), names);
      StrayedIffStrays(Root(t), names);
      ForgedIffForges(Root(t), names);
      StrayedIffStrays(Root(t), dir);
      ForgedIffForges(Root(t), dir);
      FindInIsLocate(Root(t), dir);
    }
  }
}
