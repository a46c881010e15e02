/** dirlookup, dirlink, isdirempty, link, unlink, create and the freeing end of iput, over the tree. */
module Links {
  import opened Wrappers
  import opened LinkSpec
  import opened LinkLaws

  /** The kernel panics in dirlink when the directory is as large as a file can be. */
  datatype LinkResult = Linked | Refused | Full

  /** NoInode, NoType and NoRoom are the panics of create, ilock and dirlink. */
  datatype CreateResult = Made(inum: Inum) | Existing(inum: Inum) | Declined | NoInode | NoType | NoRoom

  const MAXENTS := 4480        // MAXFILE * BSIZE / sizeof(struct dirent)

  /** Where dirlink's scan stops. */
  function FirstFree(es: seq<Entry>, from: nat): (k: nat)
    requires from <= |es|
    ensures from <= k <= |es| && FreeSlot(es, k) && forall i :: from <= i < k ==> es[i].inum != 0
    decreases |es| - from
  {
    if from == |es| || es[from].inum == 0 then from else FirstFree(es, from + 1)
  }

  /** The name may be removed: not a dot, present, and not a directory with entries. */
  predicate Removable(t: Tree, d: Inum, name: string, k: nat) {
    && IsDir(t, d) && name != "." && name != ".." && k < |t[d].ents|
    && t[d].ents[k].inum != 0 && t[d].ents[k].name == name
    && (IsDir(t, t[d].ents[k].inum) ==> Unused(t[t[d].ents[k].inum].ents))
  }

  class FileSystem {
    var tree: Tree

    method Dirlookup(d: Inum, name: string) returns (found: bool, k: nat, x: Inum)
      requires IsDir(tree, d)
      ensures found <==> !Absent(tree[d].ents, name)
      ensures found ==> k < |tree[d].ents| && tree[d].ents[k] == Entry(x, name) && x != 0
    {
      k := 0;
      while k < |tree[d].ents|
        invariant k <= |tree[d].ents|
        invariant forall i :: 0 <= i < k && tree[d].ents[i].inum != 0 ==> tree[d].ents[i].name != name
      {
        var de := tree[d].ents[k];
        if de.inum != 0 && name == de.name {
          return true, k, de.inum;
        }
        k := k + 1;
      }
      return false, 0, 0;
    }

    method Dirlink(d: Inum, name: string, x: Inum) returns (r: LinkResult)
      requires IsDir(tree, d)
      modifies this
      ensures r.Refused? <==> !Absent(old(tree)[d].ents, name)
      ensures r.Full? <==> Absent(old(tree)[d].ents, name) && FirstFree(old(tree)[d].ents, 0) >= MAXENTS
      ensures tree == if r.Linked? then SetEntry(old(tree), d, FirstFree(old(tree)[d].ents, 0), Entry(x, name))
                      else old(tree)
      ensures r.Linked? && x != 0 ==>
                forall e: Inum, n: string, y: Inum ::
                  Finds(tree, e, n, y) <==> Finds(old(tree), e, n, y) || (e, n, y) == (d, name, x)
    {
      var present, _, _ := Dirlookup(d, name);
      if present {
        return Refused;
      }
      var k := 0;
      while k < |tree[d].ents|
        invariant k <= |tree[d].ents| && FirstFree(tree[d].ents, 0) == FirstFree(tree[d].ents, k)
      {
        if tree[d].ents[k].inum == 0 {
          break;
        }
        k := k + 1;
      }
      if k >= MAXENTS {
        return Full;                              // writei refuses to go past the largest file
      }
      forall n: string, y: Inum | y != 0 ensures Entry(y, n) in Put(tree[d].ents, k, Entry(x, name))
                                   <==> Entry(y, n) in tree[d].ents || Entry(y, n) == Entry(x, name) {
        PutFinds(tree[d].ents, k, Entry(x, name), Entry(y, n));
      }
      tree := SetEntry(tree, d, k, Entry(x, name));
      return LinkResult.Linked;
    }

    /** Exact, because entries 0 and 1 of a directory are its dots. */
    method Isdirempty(d: Inum) returns (empty: bool)
      requires IsDir(tree, d) && Shapes(tree)
      ensures empty <==> forall k :: 0 <= k < |tree[d].ents| && tree[d].ents[k].inum != 0 ==>
                           tree[d].ents[k].name == "." || tree[d].ents[k].name == ".."
      ensures empty <==> Unused(tree[d].ents)
    {
      assert Shape(tree, d);
      var k := 2;
      while k < |tree[d].ents|
        invariant 2 <= k <= |tree[d].ents| && forall i :: 2 <= i < k ==> tree[d].ents[i].inum == 0
      {
        if tree[d].ents[k].inum != 0 {
          var e := tree[d].ents[k];
          assert e.name != tree[d].ents[0].name && e.name != tree[d].ents[1].name;
          return false;
        }
        k := k + 1;
      }
      return true;
    }

    /** link(old, new) with old looked up as x and the directory of new as d, which may have been removed
        since it was opened; then the link goes through but the counts are wrong. */
    method Link(x: Option<Inum>, d: Option<Inum>, name: string) returns (r: LinkResult)
      requires Inv(tree) && (x.Some? ==> x.value in tree && !tree[x.value].kind.Free?)
      requires d.Some? ==> IsDir(tree, d.value)
      modifies this
      ensures r.Refused? <==> x.None? || IsDir(old(tree), x.value) || d.None? || !Absent(old(tree)[d.value].ents, name)
      ensures r.Full? ==> FirstFree(old(tree)[d.value].ents, 0) >= MAXENTS
      ensures r.Linked? ==>
                && FirstFree(old(tree)[d.value].ents, 0) < MAXENTS
                && tree == LinkSpec.Linked(old(tree), x.value, d.value, FirstFree(old(tree)[d.value].ents, 0), name)
                && (Inv(tree) <==> Live(old(tree), d.value))
      ensures r.Refused? ==> tree == old(tree)
    {
      hide Inv;
      if x.None? {
        return Refused;
      }
      if tree[x.value].kind.Directory? {
        return Refused;
      }
      tree := AddLink(tree, x.value, 1);
      if d.Some? {
        r := Dirlink(d.value, name, x.value);
        if r.Full? {
          return;
        }
        if r.Linked? {
          SlotPastDots(old(tree), d.value);
          LinkKeepsExactly(old(tree), x.value, d.value, FirstFree(old(tree)[d.value].ents, 0), name);
          return;
        }
      }
      tree := AddLink(tree, x.value, -1);
      assert tree == old(tree);
      return Refused;
    }

    method Unlink(d: Option<Inum>, name: string) returns (ok: bool, ghost k: nat)
      requires Inv(tree) && (d.Some? ==> IsDir(tree, d.value))
      modifies this
      ensures Inv(tree)
      ensures ok ==> d.Some? && Removable(old(tree), d.value, name, k)
      ensures !ok ==> tree == old(tree) && (d.Some? ==> forall j: nat :: !Removable(old(tree), d.value, name, j))
      ensures ok ==> tree == Unlinked(old(tree), old(tree)[d.value].ents[k].inum, d.value, k)
    {
      hide Inv, Unlinked;
      k := 0;
      if d.None? || name == "." || name == ".." {
        return false, 0;
      }
      var dp := d.value;
      var found, slot, x := Dirlookup(dp, name);
      if !found {
        return false, 0;
      }
      FoundFacts(tree, dp, name, slot, x);
      if tree[x].kind.Directory? {
        var empty := Isdirempty(x);
        if !empty {
          OnlyThatSlot(tree, dp, name, slot);
          return false, 0;
        }
      }
      k := slot;
      UnlinkKeeps(tree, x, dp, slot);
      assert tree[x].nlink >= 1;                  // the panic is not reached
      var isDir := tree[x].kind.Directory?;
      tree := SetEntry(tree, dp, slot, Entry(0, ""));
      if isDir {
        tree := AddLink(tree, dp, -1);
      }
      tree := AddLink(tree, x, -1);
      UnlinkedIs(old(tree), x, dp, slot);
      return true, slot;
    }

    /** create(path, type) with the directory looked up as d, which may have been removed since it was
        opened, and got the inode ialloc would find. */
    method Create(d: Option<Inum>, name: string, kind: Kind, got: Option<Inum>) returns (r: CreateResult)
      requires Inv(tree) && !kind.Free? && (d.Some? ==> IsDir(tree, d.value))
      requires got.Some? ==> got.value in tree && tree[got.value].kind.Free?
      modifies this
      ensures match r
              case Made(x) =>
                && d.Some? && got == Some(x) && Absent(old(tree)[d.value].ents, name)
                && tree == Created(old(tree), x, kind, d.value, FirstFree(old(tree)[d.value].ents, 0), name)
                && (Inv(tree) <==> Live(old(tree), d.value))
              case Existing(x) =>
                && tree == old(tree) && d.Some? && kind.File? && x in tree && tree[x].kind.File?
                && Entry(x, name) in tree[d.value].ents
              case Declined =>
                && tree == old(tree) && (d.Some? ==>
                  && !Absent(tree[d.value].ents, name)
                  && forall x :: x in tree && Entry(x, name) in tree[d.value].ents ==>
                       !(kind.File? && tree[x].kind.File?))
              case NoInode => tree == old(tree) && got.None? && d.Some? && Absent(tree[d.value].ents, name)
              case NoType =>
                tree == old(tree) && d.Some?
                && exists x :: x in tree && tree[x].kind.Free? && Entry(x, name) in tree[d.value].ents
              case NoRoom => d.Some? && FirstFree(old(tree)[d.value].ents, 0) >= MAXENTS
    {
      hide Inv;
      if d.None? {
        return Declined;
      }
      var dp := d.value;
      var found, slot, y := Dirlookup(dp, name);
      if found {
        EntryInTree(tree, dp, slot);
        OnlyThatEntry(tree, dp, name, slot);
        if tree[y].kind.Free? {
          return NoType;
        }
        if kind.File? && tree[y].kind.File? {
          return Existing(y);
        }
        return Declined;
      }
      if got.None? {
        return NoInode;
      }
      var x := got.value;
      SlotPastDots(tree, dp);
      NotZero(tree, x);
      CreateKeepsExactly(tree, x, kind, dp, FirstFree(tree[dp].ents, 0), name);
      var made := Enter(dp, name, kind, x);
      return if made then Made(x) else NoRoom;
    }

    /** create once it has the inode x; false is the panic in dirlink. */
    method Enter(dp: Inum, name: string, kind: Kind, x: Inum) returns (ok: bool)
      requires IsDir(tree, dp) && x in tree && tree[x].kind.Free?
      requires !kind.Free? && x != 0 && Absent(tree[dp].ents, name)
      modifies this
      ensures ok <==> FirstFree(old(tree)[dp].ents, 0) < MAXENTS
      ensures ok ==> tree == Created(old(tree), x, kind, dp, FirstFree(old(tree)[dp].ents, 0), name)
    {
      tree := tree[x := Inode(kind, 1, [])];
      if kind.Directory? {
        tree := AddLink(tree, dp, 1);
        var dot := Dirlink(x, ".", x);
        assert tree[x].ents == [Entry(x, ".")];
        var dotdot := Dirlink(x, "..", dp);
        assert dot.Linked? && dotdot.Linked?;     // the panic is not reached
        assert tree[x].ents == [Entry(x, "."), Entry(dp, "..")];
      }
      assert tree[dp].ents == old(tree)[dp].ents;
      var linked := Dirlink(dp, name, x);
      assert !linked.Refused?;                    // nor this one
      if linked.Full? {
        return false;
      }
      CreatedIs(old(tree), x, kind, dp, FirstFree(old(tree)[dp].ents, 0), name, tree);
      return true;
    }

    /** iput's last reference: an inode without links is given back. */
    method Iput(x: Inum, lastReference: bool)
      requires Inv(tree) && x in tree
      modifies this
      ensures Inv(tree) && tree == if lastReference then Freed(old(tree), x) else old(tree)
      ensures tree.Keys == old(tree).Keys && forall y :: y in tree && y != x ==> tree[y] == old(tree)[y]
      ensures tree[x].kind.Free? <==> old(tree)[x].kind.Free? || (lastReference && old(tree)[x].nlink == 0)
      ensures tree[x] == old(tree)[x] || tree[x] == Inode(Free, 0, [])
    {
      hide Inv;
      FreeKeeps(tree, x);
      if tree[x].nlink == 0 && lastReference {
        tree := tree[x := Inode(Free, 0, [])];
      }
    }
  }

  lemma SlotPastDots(t: Tree, d: Inum)
    requires Inv(t) && IsDir(t, d)
    ensures FirstFree(t[d].ents, 0) >= 2
  {
    hide Counted, Rooted, OneName;
    assert Shape(t, d) && d != 0;
  }

  lemma NotZero(t: Tree, x: Inum)
    requires Inv(t) && x in t
    ensures x != 0
  {
  }

  lemma EntryInTree(t: Tree, d: Inum, k: nat)
    requires Inv(t) && IsDir(t, d) && k < |t[d].ents| && t[d].ents[k].inum != 0
    ensures t[d].ents[k].inum in t
  {
    hide Counted, Rooted, OneName;
    assert Shape(t, d);
  }

  /** An entry found under a name other than the dots is in a live directory and past its dots. */
  lemma FoundFacts(t: Tree, d: Inum, name: string, k: nat, x: Inum)
    requires Inv(t) && IsDir(t, d) && k < |t[d].ents|
    requires t[d].ents[k] == Entry(x, name) && x != 0 && name != "." && name != ".."
    ensures Live(t, d) && x in t && Names(t, d, k, x) && k >= 2 && Shapes(t)
  {
    hide Counted, Rooted, OneName;
    assert Shape(t, d);
  }

  lemma OnlyThatSlot(t: Tree, d: Inum, name: string, k: nat)
    requires Inv(t) && IsDir(t, d) && k < |t[d].ents| && t[d].ents[k].inum != 0 && t[d].ents[k].name == name
    ensures forall j: nat :: j < |t[d].ents| && t[d].ents[j].inum != 0 && t[d].ents[j].name == name ==> j == k
  {
    hide Counted, Rooted, OneName;
    assert Shape(t, d);
  }

  lemma OnlyThatEntry(t: Tree, d: Inum, name: string, k: nat)
    requires Inv(t) && IsDir(t, d) && k < |t[d].ents| && t[d].ents[k].inum != 0 && t[d].ents[k].name == name
    ensures forall x :: x in t && Entry(x, name) in t[d].ents ==> x == t[d].ents[k].inum
  {
    hide Counted, Rooted, OneName;
    OnlyThatSlot(t, d, name, k);
    assert 0 !in t;
    hide Inv, Shapes;
    forall x | x in t && Entry(x, name) in t[d].ents ensures x == t[d].ents[k].inum {
      var j :| 0 <= j < |t[d].ents| && t[d].ents[j] == Entry(x, name);
    }
  }

  lemma UnlinkedIs(t: Tree, x: Inum, d: Inum, k: nat)
    requires x in t && d in t
    ensures var t1 := SetEntry(t, d, k, Entry(0, ""));
            Unlinked(t, x, d, k) == AddLink(if t[x].kind.Directory? then AddLink(t1, d, -1) else t1, x, -1)
  {
  }

  lemma CreatedIs(t: Tree, x: Inum, kind: Kind, d: Inum, k: nat, name: string, t': Tree)
    requires x in t && d in t && x != d && t'.Keys == t.Keys
    requires forall y :: y in t && y != x && y != d ==> t'[y] == t[y]
    requires t'[x] == Inode(kind, 1, if kind.Directory? then [Entry(x, "."), Entry(d, "..")] else [])
    requires t'[d] == t[d].(ents := Put(t[d].ents, k, Entry(x, name)),
                            nlink := t[d].nlink + if kind.Directory? then 1 else 0)
    ensures t' == Created(t, x, kind, d, k, name)
  {
  }
}
