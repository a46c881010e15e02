/** Every operation on the directory tree keeps the link counts and the shape of the tree. */
module LinkLaws {
  import opened LinkSpec

  // ---- link ---------------------------------------------------------------------------------------

  /** What link requires of its arguments once it gets to writing; x != 0 is a file or a device. */
  predicate CanLink(t: Tree, x: Inum, d: Inum, k: nat, name: string) {
    && x in t && !t[x].kind.Directory? && !t[x].kind.Free?
    && IsDir(t, d) && FreeSlot(t[d].ents, k) && Absent(t[d].ents, name) && k >= 2
  }

  lemma LinkNames(t: Tree, x: Inum, d: Inum, k: nat, name: string, e: Inum, j: nat, y: Inum)
    requires CanLink(t, x, d, k, name) && y != 0
    ensures Names(Linked(t, x, d, k, name), e, j, y) <==> Names(t, e, j, y) || (Live(t, d) && (e, j, y) == (d, k, x))
  {
  }

  /** Filling a free slot adds one lookup and takes none away. */
  lemma PutFinds(es: seq<Entry>, k: nat, e: Entry, f: Entry)
    requires FreeSlot(es, k) && f.inum != 0
    ensures f in Put(es, k, e) <==> f in es || f == e
  {
    var es' := Put(es, k, e);
    assert es'[k] == e;
    if f in es {
      var i :| 0 <= i < |es| && es[i] == f;
      assert i != k && es'[i] == f;
    }
  }

  /** What link changes: one lookup, one link count. */
  lemma LinkTells(t: Tree, x: Inum, d: Inum, k: nat, name: string)
    requires CanLink(t, x, d, k, name) && x != 0
    ensures var t' := Linked(t, x, d, k, name);
            && t'.Keys == t.Keys
            && t'[x] == t[x].(nlink := t[x].nlink + 1)
            && t'[d].kind == t[d].kind && t'[d].nlink == t[d].nlink
            && (forall y :: y in t && y != x && y != d ==> t'[y] == t[y])
            && (forall e: Inum, n: string, y: Inum ::
                  Finds(t', e, n, y) <==> Finds(t, e, n, y) || (e, n, y) == (d, name, x))
  {
    var t' := Linked(t, x, d, k, name);
    forall e: Inum, n: string, y: Inum ensures Finds(t', e, n, y) <==> Finds(t, e, n, y) || (e, n, y) == (d, name, x) {
      if y != 0 { PutFinds(t[d].ents, k, Entry(x, name), Entry(y, n)); }
    }
  }

  lemma LinkCounted(t: Tree, x: Inum, d: Inum, k: nat, name: string)
    requires Counted(t) && 0 !in t && CanLink(t, x, d, k, name) && Live(t, d)
    ensures Counted(Linked(t, x, d, k, name))
  {
    hide Refs, Names, FreeSlot, Absent, Live;
    var t' := Linked(t, x, d, k, name);
    forall y: Inum | y in t' ensures t'[y].nlink == |Refs(t', y)| {
      LinkCount(t, x, d, k, name, y);
    }
  }

  lemma LinkCount(t: Tree, x: Inum, d: Inum, k: nat, name: string, y: Inum)
    requires Counted(t) && 0 !in t && CanLink(t, x, d, k, name) && Live(t, d) && y in t
    ensures Linked(t, x, d, k, name)[y].nlink == |Refs(Linked(t, x, d, k, name), y)|
  {
    hide Names, Refs;
    var t' := Linked(t, x, d, k, name);
    forall e: Inum, j: nat ensures Names(t', e, j, y) <==> Names(t, e, j, y) || (e, j, y) == (d, k, x) {
      LinkNames(t, x, d, k, name, e, j, y);
    }
    if y == x {
      SlotUnused(t, d, k, x);
      OneMoreRef(t, t', x, d, k);
    } else {
      SameRefs(t, t', y);
    }
  }

  lemma SlotUnused(t: Tree, d: Inum, k: nat, x: Inum)
    requires IsDir(t, d) && FreeSlot(t[d].ents, k) && x != 0
    ensures !Names(t, d, k, x)
  {
  }

  lemma PutKeepsUnique(es: seq<Entry>, k: nat, e: Entry)
    requires UniqueNames(es) && FreeSlot(es, k) && Absent(es, e.name)
    ensures UniqueNames(Put(es, k, e))
  {
  }

  lemma LinkShapes(t: Tree, x: Inum, d: Inum, k: nat, name: string)
    requires Shapes(t) && CanLink(t, x, d, k, name) && Live(t, d)
    ensures Shapes(Linked(t, x, d, k, name))
  {
    var t' := Linked(t, x, d, k, name);
    PutKeepsUnique(t[d].ents, k, Entry(x, name));
    hide UniqueNames, Absent;
    forall e: Inum | IsDir(t', e) ensures Shape(t', e) {
      assert Shape(t, e);
    }
  }

  lemma LinkRooted(t: Tree, x: Inum, d: Inum, k: nat, name: string)
    requires Rooted(t) && Shapes(t) && CanLink(t, x, d, k, name) && Live(t, d)
    ensures Rooted(Linked(t, x, d, k, name))
  {
    var t' := Linked(t, x, d, k, name);
    hide Parented, Shape;
    forall c: Inum | Live(t', c) ensures |t'[c].ents| >= 2 && Parented(t', c) {
      LinkParent(t, x, d, k, name, c);
    }
  }

  lemma LinkParent(t: Tree, x: Inum, d: Inum, k: nat, name: string, c: Inum)
    requires Rooted(t) && Shapes(t) && CanLink(t, x, d, k, name) && Live(t, d) && Live(Linked(t, x, d, k, name), c)
    ensures |Linked(t, x, d, k, name)[c].ents| >= 2 && Parented(Linked(t, x, d, k, name), c)
  {
    assert Shape(t, c) && Live(t, c);
    var p, j := OwnListing(t, c);
    LinkNames(t, x, d, k, name, p, j, c);
    hide Rooted, Shapes, Shape;
  }

  /** Where a directory's ".." says it is listed. */
  lemma OwnListing(t: Tree, c: Inum) returns (p: Inum, j: nat)
    requires Rooted(t) && Live(t, c)
    ensures |t[c].ents| >= 2 && p == t[c].ents[1].inum
    ensures if c == ROOT then p == ROOT else j >= 2 && Names(t, p, j, c)
  {
    assert Parented(t, c);
    p, j := t[c].ents[1].inum, 0;
    if c != ROOT {
      j :| j >= 2 && Names(t, p, j, c);
    }
  }

  lemma LinkOneName(t: Tree, x: Inum, d: Inum, k: nat, name: string)
    requires OneName(t) && 0 !in t && CanLink(t, x, d, k, name) && Live(t, d)
    ensures OneName(Linked(t, x, d, k, name))
  {
    var t' := Linked(t, x, d, k, name);
    forall y: Inum, e: Inum, j: nat | IsDir(t', y) && Names(t', e, j, y) && j >= 2 ensures ListedOnce(t', y, e, j) {
      LinkNames(t, x, d, k, name, e, j, y);
      assert ListedOnce(t, y, e, j);
    }
  }

  /** link keeps everything exactly when the directory is live. */
  lemma LinkKeepsExactly(t: Tree, x: Inum, d: Inum, k: nat, name: string)
    requires Inv(t) && CanLink(t, x, d, k, name)
    ensures Inv(Linked(t, x, d, k, name)) <==> Live(t, d)
  {
    hide Rooted, OneName;
    var t' := Linked(t, x, d, k, name);
    if Live(t, d) {
      LinkCounted(t, x, d, k, name);
      LinkShapes(t, x, d, k, name);
      LinkRooted(t, x, d, k, name);
      LinkOneName(t, x, d, k, name);
    } else {
      forall e: Inum, j: nat ensures Names(t', e, j, x) <==> Names(t, e, j, x) {
        LinkNames(t, x, d, k, name, e, j, x);
      }
      SameRefs(t, t', x);
      assert t'[x].nlink != |Refs(t', x)|;
    }
  }

  // ---- create -------------------------------------------------------------------------------------------

  predicate CanCreate(t: Tree, x: Inum, kind: Kind, d: Inum, k: nat, name: string) {
    && x in t && t[x].kind.Free? && !kind.Free?
    && IsDir(t, d) && FreeSlot(t[d].ents, k) && Absent(t[d].ents, name) && k >= 2
  }

  lemma CreateNames(t: Tree, x: Inum, kind: Kind, d: Inum, k: nat, name: string, e: Inum, j: nat, y: Inum)
    requires CanCreate(t, x, kind, d, k, name) && Live(t, d) && y != 0
    ensures Names(Created(t, x, kind, d, k, name), e, j, y) <==>
              || Names(t, e, j, y)
              || (e, j, y) == (d, k, x)
              || (kind.Directory? && (e, j, y) == (x, 1, d))
  {
  }

  /** What create makes: an inode of the kind asked for, found under its name, with its dots if a directory. */
  lemma CreateTells(t: Tree, x: Inum, kind: Kind, d: Inum, k: nat, name: string)
    requires CanCreate(t, x, kind, d, k, name) && x != 0 && d != 0
    ensures var t' := Created(t, x, kind, d, k, name);
            && t'.Keys == t.Keys
            && t'[x].kind == kind && t'[x].nlink == 1
            && t'[d].kind == t[d].kind && t'[d].nlink == t[d].nlink + (if kind == Directory then 1 else 0)
            && (forall y :: y in t && y != x && y != d ==> t'[y] == t[y])
            && (forall e: Inum, n: string, y: Inum :: Finds(t', e, n, y) <==>
                  || Finds(t, e, n, y) || (e, n, y) == (d, name, x)
                  || (kind == Directory && e == x && (n, y) in {(".", x), ("..", d)}))
  {
    var t' := Created(t, x, kind, d, k, name);
    forall e: Inum, n: string, y: Inum
      ensures Finds(t', e, n, y) <==>
                || Finds(t, e, n, y) || (e, n, y) == (d, name, x)
                || (kind == Directory && e == x && (n, y) in {(".", x), ("..", d)})
    {
      if y != 0 { PutFinds(t[d].ents, k, Entry(x, name), Entry(y, n)); }
    }
  }

  lemma CreateCounted(t: Tree, x: Inum, kind: Kind, d: Inum, k: nat, name: string)
    requires Counted(t) && Shapes(t) && CanCreate(t, x, kind, d, k, name) && Live(t, d)
    ensures Counted(Created(t, x, kind, d, k, name))
  {
    hide Refs, Names, FreeSlot, Absent, Live, Shapes;
    var t' := Created(t, x, kind, d, k, name);
    forall y: Inum | y in t' ensures t'[y].nlink == |Refs(t', y)| {
      CreateCount(t, x, kind, d, k, name, y);
    }
  }

  lemma CreateCount(t: Tree, x: Inum, kind: Kind, d: Inum, k: nat, name: string, y: Inum)
    requires Counted(t) && Shapes(t) && CanCreate(t, x, kind, d, k, name) && Live(t, d) && y in t
    ensures Created(t, x, kind, d, k, name)[y].nlink == |Refs(Created(t, x, kind, d, k, name), y)|
  {
    hide Names, Refs, Shape;
    var t' := Created(t, x, kind, d, k, name);
    forall e: Inum, j: nat
      ensures Names(t', e, j, y) <==>
                Names(t, e, j, y) || (e, j, y) == (d, k, x) || (kind.Directory? && (e, j, y) == (x, 1, d))
    {
      CreateNames(t, x, kind, d, k, name, e, j, y);
    }
    if y == x {
      NotNamed(t, x, d, k);
      OneMoreRef(t, t', x, d, k);
    } else if y == d && kind.Directory? {
      assert !Names(t, x, 1, d) by { FreeNamesNothing(t, x, 1, d); }
      OneMoreRef(t, t', d, x, 1);
    } else {
      SameRefs(t, t', y);
    }
  }

  lemma FreeNamesNothing(t: Tree, x: Inum, j: nat, y: Inum)
    requires x in t && t[x].kind.Free?
    ensures !Names(t, x, j, y)
  {
  }

  lemma NewDirUnique(x: Inum, d: Inum)
    ensures UniqueNames([Entry(x, "."), Entry(d, "..")]) && Unused([Entry(x, "."), Entry(d, "..")])
  {
  }

  lemma CreateShapes(t: Tree, x: Inum, kind: Kind, d: Inum, k: nat, name: string)
    requires Shapes(t) && CanCreate(t, x, kind, d, k, name) && Live(t, d)
    ensures Shapes(Created(t, x, kind, d, k, name))
  {
    var t' := Created(t, x, kind, d, k, name);
    PutKeepsUnique(t[d].ents, k, Entry(x, name));
    NewDirUnique(x, d);
    hide UniqueNames, Absent;
    forall e: Inum | IsDir(t', e) ensures Shape(t', e) {
      assert e != x ==> Shape(t, e);
    }
  }

  lemma CreateRooted(t: Tree, x: Inum, kind: Kind, d: Inum, k: nat, name: string)
    requires Rooted(t) && Shapes(t) && CanCreate(t, x, kind, d, k, name) && Live(t, d)
    ensures Rooted(Created(t, x, kind, d, k, name))
  {
    var t' := Created(t, x, kind, d, k, name);
    hide Parented, Shape;
    forall c: Inum | Live(t', c) ensures |t'[c].ents| >= 2 && Parented(t', c) {
      CreateParent(t, x, kind, d, k, name, c);
    }
  }

  lemma CreateParent(t: Tree, x: Inum, kind: Kind, d: Inum, k: nat, name: string, c: Inum)
    requires Rooted(t) && Shapes(t) && CanCreate(t, x, kind, d, k, name) && Live(t, d)
    requires Live(Created(t, x, kind, d, k, name), c)
    ensures |Created(t, x, kind, d, k, name)[c].ents| >= 2 && Parented(Created(t, x, kind, d, k, name), c)
  {
    var t' := Created(t, x, kind, d, k, name);
    if c == x {
      assert Names(t', d, k, x) by { CreateNames(t, x, kind, d, k, name, d, k, x); }
    } else {
      assert Shape(t, c) && Live(t, c);
      var p, j := OwnListing(t, c);
      CreateNames(t, x, kind, d, k, name, p, j, c);
      hide Rooted, Shapes, Shape;
    }
  }

  lemma CreateOneName(t: Tree, x: Inum, kind: Kind, d: Inum, k: nat, name: string)
    requires OneName(t) && Counted(t) && Shapes(t) && Live(t, ROOT) && CanCreate(t, x, kind, d, k, name) && Live(t, d)
    ensures OneName(Created(t, x, kind, d, k, name))
  {
    var t' := Created(t, x, kind, d, k, name);
    forall y: Inum, e: Inum, j: nat | IsDir(t', y) && Names(t', e, j, y) && j >= 2 ensures ListedOnce(t', y, e, j) {
      CreateListed(t, x, kind, d, k, name, y, e, j);
    }
  }

  lemma CreateListed(t: Tree, x: Inum, kind: Kind, d: Inum, k: nat, name: string, y: Inum, e: Inum, j: nat)
    requires OneName(t) && Counted(t) && Shapes(t) && Live(t, ROOT) && CanCreate(t, x, kind, d, k, name) && Live(t, d)
    requires var t' := Created(t, x, kind, d, k, name); IsDir(t', y) && Names(t', e, j, y) && j >= 2
    ensures ListedOnce(Created(t, x, kind, d, k, name), y, e, j)
  {
    hide Counted, Shape;
    CreateNames(t, x, kind, d, k, name, e, j, y);
    if y == x {
      NotNamed(t, x, e, j);
      forall i: nat | 2 <= i < |t[d].ents| ensures t[d].ents[i].inum != x {
        NotNamed(t, x, d, i);
      }
    } else {
      assert ListedOnce(t, y, e, j);
    }
  }

  /** create keeps everything exactly when the directory is live. */
  lemma CreateKeepsExactly(t: Tree, x: Inum, kind: Kind, d: Inum, k: nat, name: string)
    requires Inv(t) && CanCreate(t, x, kind, d, k, name)
    ensures Inv(Created(t, x, kind, d, k, name)) <==> Live(t, d)
  {
    hide OneName, Shape, Parented;
    var t' := Created(t, x, kind, d, k, name);
    if Live(t, d) {
      CreateCounted(t, x, kind, d, k, name);
      CreateShapes(t, x, kind, d, k, name);
      CreateRooted(t, x, kind, d, k, name);
      CreateOneName(t, x, kind, d, k, name);
    } else {
      DeadCreate(t, x, kind, d, k, name);
    }
  }

  /** In a dead directory the new name does not count, or brings the directory half back to life. */
  lemma DeadCreate(t: Tree, x: Inum, kind: Kind, d: Inum, k: nat, name: string)
    requires Inv(t) && CanCreate(t, x, kind, d, k, name) && !Live(t, d)
    ensures !Inv(Created(t, x, kind, d, k, name))
  {
    var t' := Created(t, x, kind, d, k, name);
    hide OneName;
    if kind.Directory? {
      HalfAlive(t, x, d, k, name);
    } else {
      Uncounted(t, x, kind, d, k, name);
    }
  }

  /** A subdirectory of a dead directory raises its count again, but nobody lists it. */
  lemma HalfAlive(t: Tree, x: Inum, d: Inum, k: nat, name: string)
    requires Counted(t) && Shapes(t) && Live(t, ROOT) && CanCreate(t, x, Directory, d, k, name) && !Live(t, d)
    ensures !Rooted(Created(t, x, Directory, d, k, name))
  {
    var t' := Created(t, x, Directory, d, k, name);
    assert Shape(t, d);
    CountIs(t, d);
    forall p: Inum, j: nat | j >= 2 ensures !Names(t', p, j, d) {
      NotNamed(t, d, p, j);
      NobodyLists(t, x, d, k, name, p, j);
    }
    hide Shapes, Shape, Counted, Refs, Names;
    assert d != ROOT && t'[d].ents[1] == t[d].ents[1] && t'[d].nlink == t[d].nlink + 1;
    assert Live(t', d) && !Parented(t', d);
  }

  lemma NobodyLists(t: Tree, x: Inum, d: Inum, k: nat, name: string, p: Inum, j: nat)
    requires CanCreate(t, x, Directory, d, k, name) && d != 0 && Unused(t[d].ents) && j >= 2 && !Names(t, p, j, d)
    ensures !Names(Created(t, x, Directory, d, k, name), p, j, d)
  {
  }

  /** A file whose only name is in a dead directory has a link that does not count. */
  lemma Uncounted(t: Tree, x: Inum, kind: Kind, d: Inum, k: nat, name: string)
    requires Counted(t) && Shapes(t) && CanCreate(t, x, kind, d, k, name) && !Live(t, d) && !kind.Directory?
    ensures !Counted(Created(t, x, kind, d, k, name))
  {
    var t' := Created(t, x, kind, d, k, name);
    forall r: (Inum, nat) | r in Refs(t', x) ensures false {
      RefsIff(t', x, r.0, r.1);
      NotNamed(t, x, r.0, r.1);
    }
    assert Refs(t', x) == {};
    assert t'[x].nlink == 1;
  }

  // ---- unlink -----------------------------------------------------------------------------------------------

  /** unlink has found the entry, and the inode is no directory or an empty one. */
  predicate CanUnlink(t: Tree, x: Inum, d: Inum, k: nat) {
    Names(t, d, k, x) && k >= 2 && x in t && (IsDir(t, x) ==> Unused(t[x].ents))
  }

  lemma SoleRef(t: Tree, x: Inum, d: Inum, k: nat)
    requires Shapes(t) && Rooted(t) && OneName(t) && CanUnlink(t, x, d, k) && IsDir(t, x)
    ensures Refs(t, x) == {(d, k)}
  {
  }

  /** What makes removing the last name of a directory safe. */
  predicate Detachable(t: Tree, x: Inum, d: Inum) {
    && x != ROOT && x != d && x in t && d in t && |t[x].ents| >= 2
    && t[x].nlink == 1 && t[x].ents[1].inum == d && t[d].nlink >= 2
  }

  lemma EmptyDirFacts(t: Tree, x: Inum, d: Inum, k: nat)
    requires Inv(t) && CanUnlink(t, x, d, k) && IsDir(t, x)
    ensures Detachable(t, x, d)
  {
    hide Counted, Rooted, Refs;
    SoleRef(t, x, d, k);
    assert ListedOnce(t, x, d, k) && Shape(t, x);
    assert t[x].nlink == 1 by { CountIs(t, x); }
    CountIs(t, d);
    TwoLinks(t, d, x);
  }

  lemma CountIs(t: Tree, x: Inum)
    requires Counted(t) && x in t
    ensures t[x].nlink == |Refs(t, x)|
  {
  }

  /** A directory with a live subdirectory has that ".." and its own name. */
  lemma TwoLinks(t: Tree, d: Inum, x: Inum)
    requires d in t && t[d].nlink == |Refs(t, d)| && Rooted(t) && Live(t, d) && d != x && Names(t, x, 1, d)
    ensures t[d].nlink >= 2
  {
    var p, j := OwnName(t, d);
    RefsIff(t, d, x, 1);
    RefsIff(t, d, p, j);
    assert (p, j) != (x, 1);
    CardAtLeast({(p, j), (x, 1)}, Refs(t, d));
  }

  lemma OwnName(t: Tree, d: Inum) returns (p: Inum, j: nat)
    requires Rooted(t) && Live(t, d)
    ensures Names(t, p, j, d) && (p == d || j >= 2)
  {
    assert Parented(t, d);
    if d == ROOT {
      p, j := ROOT, 1;
    } else {
      p := t[d].ents[1].inum;
      j :| j >= 2 && Names(t, p, j, d);
    }
  }

  lemma CardAtLeast(a: set<(Inum, nat)>, b: set<(Inum, nat)>)
    requires a <= b
    ensures |a| <= |b|
  {
    assert b == a + (b - a);
  }

  lemma UnlinkNames(t: Tree, x: Inum, d: Inum, k: nat, e: Inum, j: nat, y: Inum)
    requires CanUnlink(t, x, d, k) && (IsDir(t, x) ==> Detachable(t, x, d)) && y != 0
    ensures Names(Unlinked(t, x, d, k), e, j, y) <==> Names(t, e, j, y) && (e, j) != (d, k) && !(e == x && IsDir(t, x))
  {
  }

  /** Clearing a slot takes its lookup away and no other. */
  lemma ClearFinds(es: seq<Entry>, k: nat, f: Entry)
    requires k < |es| && UniqueNames(es) && es[k].inum != 0 && f.inum != 0
    ensures f in Put(es, k, Entry(0, "")) <==> f in es && f.name != es[k].name
  {
    var es' := Put(es, k, Entry(0, ""));
    if f in es {
      var i :| 0 <= i < |es| && es[i] == f;
      assert i != k ==> es'[i] == f;
    }
  }

  /** What unlink changes: one lookup goes, and with it a link; a directory also lets go of its parent. */
  lemma UnlinkTells(t: Tree, x: Inum, d: Inum, k: nat)
    requires Inv(t) && CanUnlink(t, x, d, k)
    ensures var t' := Unlinked(t, x, d, k);
            && t'.Keys == t.Keys && x != d
            && t'[x] == t[x].(nlink := t[x].nlink - 1)
            && t'[d].kind == t[d].kind && t'[d].nlink == t[d].nlink - (if IsDir(t, x) then 1 else 0)
            && (forall y :: y in t && y != x && y != d ==> t'[y] == t[y])
            && (forall e: Inum, n: string, y: Inum ::
                  Finds(t', e, n, y) <==> Finds(t, e, n, y) && (e, n) != (d, t[d].ents[k].name))
  {
    hide Inv, UniqueNames;
    UnlinkApart(t, x, d, k);
    forall e: Inum, n: string, y: Inum
      ensures Finds(Unlinked(t, x, d, k), e, n, y) <==> Finds(t, e, n, y) && (e, n) != (d, t[d].ents[k].name)
    {
      UnlinkFinds(t, x, d, k, e, n, y);
    }
  }

  lemma UnlinkApart(t: Tree, x: Inum, d: Inum, k: nat)
    requires Inv(t) && CanUnlink(t, x, d, k)
    ensures x != 0 && x != d && UniqueNames(t[d].ents)
  {
    if IsDir(t, x) { EmptyDirFacts(t, x, d, k); }
    hide Counted, Rooted, OneName;
    assert Shape(t, d);
  }

  lemma UnlinkFinds(t: Tree, x: Inum, d: Inum, k: nat, e: Inum, n: string, y: Inum)
    requires CanUnlink(t, x, d, k) && x != 0 && x != d && UniqueNames(t[d].ents)
    ensures Finds(Unlinked(t, x, d, k), e, n, y) <==> Finds(t, e, n, y) && (e, n) != (d, t[d].ents[k].name)
  {
    if y != 0 { ClearFinds(t[d].ents, k, Entry(y, n)); }
  }

  lemma OneLessRef(t: Tree, t': Tree, x: Inum, d: Inum, k: nat)
    requires Names(t, d, k, x) && !Names(t', d, k, x)
    requires forall e: Inum, j: nat :: (e, j) != (d, k) ==> (Names(t, e, j, x) <==> Names(t', e, j, x))
    ensures |Refs(t', x)| == |Refs(t, x)| - 1
  {
    OneMoreRef(t', t, x, d, k);
  }

  lemma UnlinkCount(t: Tree, x: Inum, d: Inum, k: nat, y: Inum)
    requires Counted(t) && 0 !in t && CanUnlink(t, x, d, k) && (IsDir(t, x) ==> Detachable(t, x, d)) && y in t
    ensures Unlinked(t, x, d, k)[y].nlink == |Refs(Unlinked(t, x, d, k), y)|
  {
    hide Names, Refs;
    var t' := Unlinked(t, x, d, k);
    forall e: Inum, j: nat
      ensures Names(t', e, j, y) <==> Names(t, e, j, y) && (e, j) != (d, k) && !(e == x && IsDir(t, x))
    {
      UnlinkNames(t, x, d, k, e, j, y);
    }
    EmptyNames(t, x, d, k, y);
    if y == x {
      OneLessRef(t, t', x, d, k);
    } else if IsDir(t, x) && y == d {
      OneLessRef(t, t', d, x, 1);
    } else {
      SameRefs(t, t', y);
    }
  }

  /** The removed entry names only x, and an empty directory names only its parent. */
  lemma EmptyNames(t: Tree, x: Inum, d: Inum, k: nat, y: Inum)
    requires 0 !in t && CanUnlink(t, x, d, k) && (IsDir(t, x) ==> Detachable(t, x, d)) && y in t
    ensures y != x ==> !Names(t, d, k, y)
    ensures IsDir(t, x) ==> forall j: nat :: Names(t, x, j, y) <==> y == d && j == 1
  {
  }

  lemma UnlinkShapes(t: Tree, x: Inum, d: Inum, k: nat)
    requires Shapes(t) && CanUnlink(t, x, d, k) && (IsDir(t, x) ==> Detachable(t, x, d)) && t[x].nlink >= 1
    ensures Shapes(Unlinked(t, x, d, k))
  {
    var t' := Unlinked(t, x, d, k);
    forall e: Inum | IsDir(t', e) ensures Shape(t', e) {
      assert Shape(t, e);
      UnlinkUnique(t[d].ents, k);
      hide UniqueNames;
    }
  }

  lemma UnlinkUnique(es: seq<Entry>, k: nat)
    requires k < |es|
    ensures UniqueNames(es) ==> UniqueNames(Put(es, k, Entry(0, "")))
  {
  }

  lemma UnlinkRooted(t: Tree, x: Inum, d: Inum, k: nat)
    requires Rooted(t) && Shapes(t) && CanUnlink(t, x, d, k) && (IsDir(t, x) ==> Detachable(t, x, d))
    ensures Rooted(Unlinked(t, x, d, k))
  {
    var t' := Unlinked(t, x, d, k);
    hide Shape, Parented;
    forall c: Inum | Live(t', c) ensures |t'[c].ents| >= 2 && Parented(t', c) {
      UnlinkParent(t, x, d, k, c);
    }
  }

  lemma UnlinkParent(t: Tree, x: Inum, d: Inum, k: nat, c: Inum)
    requires Rooted(t) && Shapes(t) && CanUnlink(t, x, d, k) && (IsDir(t, x) ==> Detachable(t, x, d))
    requires Live(Unlinked(t, x, d, k), c)
    ensures |Unlinked(t, x, d, k)[c].ents| >= 2 && Parented(Unlinked(t, x, d, k), c)
  {
    var t' := Unlinked(t, x, d, k);
    assert Live(t, c) && Shape(t, c) && Parented(t, c);
    hide Rooted, Shapes, Shape;
    var p := t[c].ents[1].inum;
    if c != ROOT {
      var j :| j >= 2 && Names(t, p, j, c);
      EmptyNames(t, x, d, k, c);
      UnlinkNames(t, x, d, k, p, j, c);
      assert c != x || !IsDir(t, x);
      assert Names(t', p, j, c);
    }
  }

  lemma UnlinkOneName(t: Tree, x: Inum, d: Inum, k: nat)
    requires OneName(t) && Shapes(t) && CanUnlink(t, x, d, k) && (IsDir(t, x) ==> Detachable(t, x, d))
    ensures OneName(Unlinked(t, x, d, k))
  {
    var t' := Unlinked(t, x, d, k);
    forall y: Inum, e: Inum, j: nat | IsDir(t', y) && Names(t', e, j, y) && j >= 2 ensures ListedOnce(t', y, e, j) {
      assert y in t && y != 0 && Shape(t, y);
      UnlinkNames(t, x, d, k, e, j, y);
      assert ListedOnce(t, y, e, j);
      hide Shape;
    }
  }

  /** unlink keeps everything; its panic on a link count below one is never reached. */
  lemma UnlinkKeeps(t: Tree, x: Inum, d: Inum, k: nat)
    requires Inv(t) && CanUnlink(t, x, d, k)
    ensures Inv(Unlinked(t, x, d, k)) && t[x].nlink >= 1
    ensures IsDir(t, x) ==> !Live(Unlinked(t, x, d, k), x)
  {
    hide Rooted, OneName, Shape, Names, Refs;
    NamedHasLink(t, x, d, k);
    if IsDir(t, x) { EmptyDirFacts(t, x, d, k); }
    forall y: Inum | y in t ensures Unlinked(t, x, d, k)[y].nlink == |Refs(Unlinked(t, x, d, k), y)| {
      UnlinkCount(t, x, d, k, y);
    }
    UnlinkShapes(t, x, d, k);
    UnlinkRooted(t, x, d, k);
    UnlinkOneName(t, x, d, k);
    assert Unlinked(t, x, d, k).Keys == t.Keys by { UnlinkKeys(t, x, d, k); }
  }

  lemma UnlinkKeys(t: Tree, x: Inum, d: Inum, k: nat)
    requires CanUnlink(t, x, d, k)
    ensures Unlinked(t, x, d, k).Keys == t.Keys
  {
  }

  // ---- the last reference ---------------------------------------------------------------------------------------

  lemma FreeKeeps(t: Tree, x: Inum)
    requires Inv(t)
    ensures Inv(Freed(t, x))
  {
    hide Counted, Rooted, OneName, Shapes;
    FreeCounted(t, x);
    FreeRooted(t, x);
    FreeOneName(t, x);
    FreeShapes(t, x);
  }

  /** The name just unlinked was the last one if and only if the inode is free, for create, after the last iput. */
  lemma LastNameFrees(t: Tree, x: Inum, d: Inum, k: nat)
    requires Inv(t) && CanUnlink(t, x, d, k)
    ensures var t' := Freed(Unlinked(t, x, d, k), x);
            && Inv(t') && x in t'
            && (t'[x].kind.Free? <==> Refs(t, x) == {(d, k)})
            && (t'[x].kind.Free? ==> forall e: Inum, n: string :: !Live(t', e) || n == "." || !Finds(t', e, n, x))
  {
    hide Rooted, OneName, Shape, Refs;
    var u := Unlinked(t, x, d, k);
    var t' := Freed(u, x);
    UnlinkKeeps(t, x, d, k);
    UnlinkTells(t, x, d, k);
    FreeKeeps(u, x);
    CountIs(t, x);
    RefsIff(t, x, d, k);
    if |Refs(t, x)| == 1 { OnlyMember(Refs(t, x), (d, k)); }
    if t'[x].kind.Free? {
      forall e: Inum, n: string | Live(t', e) && n != "." ensures !Finds(t', e, n, x) { NoLookup(t', x, e, n); }
    }
  }

  lemma OnlyMember(s: set<(Inum, nat)>, r: (Inum, nat))
    requires r in s && |s| == 1
    ensures s == {r}
  {
    assert |s - {r}| == 0;
  }

  lemma DotFirst(t: Tree, e: Inum)
    requires Shapes(t) && IsDir(t, e)
    ensures |t[e].ents| >= 2 && t[e].ents[0].name == "."
  {
    assert Shape(t, e);
  }

  lemma NoLookup(t: Tree, x: Inum, e: Inum, n: string)
    requires Counted(t) && Shapes(t) && x in t && t[x].nlink == 0 && Live(t, e) && n != "."
    ensures !Finds(t, e, n, x)
  {
    hide Shapes, Counted;
    DotFirst(t, e);
    if Finds(t, e, n, x) {
      var k :| 0 <= k < |t[e].ents| && t[e].ents[k] == Entry(x, n);
      assert Names(t, e, k, x);
      NotNamed(t, x, e, k);
      assert false;
    }
  }

  lemma FreeShapes(t: Tree, x: Inum)
    requires Shapes(t)
    ensures Shapes(Freed(t, x))
  {
    var t' := Freed(t, x);
    forall e: Inum | IsDir(t', e) ensures Shape(t', e) {
      assert Shape(t, e);
    }
  }

  lemma FreeCounted(t: Tree, x: Inum)
    requires Counted(t)
    ensures Counted(Freed(t, x))
  {
    var t' := Freed(t, x);
    forall y: Inum | y in t' ensures t'[y].nlink == |Refs(t', y)| {
      SameRefs(t, t', y);
    }
  }

  lemma FreeRooted(t: Tree, x: Inum)
    requires Rooted(t) && Shapes(t)
    ensures Rooted(Freed(t, x))
  {
  }

  lemma FreeOneName(t: Tree, x: Inum)
    requires OneName(t)
    ensures OneName(Freed(t, x))
  {
    var t' := Freed(t, x);
    forall y: Inum, e: Inum, j: nat | IsDir(t', y) && Names(t', e, j, y) && j >= 2 ensures ListedOnce(t', y, e, j) {
      assert ListedOnce(t, y, e, j);
    }
  }

  // ---- the first tree --------------------------------------------------------------------------------------------

  /** mkfs before it adds files: a root that is its own parent, every other inode free. */
  function NewTree(inums: set<Inum>): Tree {
    map x | x in inums ::
      if x == ROOT then Inode(Directory, 1, [Entry(ROOT, "."), Entry(ROOT, "..")]) else Inode(Free, 0, [])
  }

  lemma NewTreeOk(inums: set<Inum>)
    requires ROOT in inums && 0 !in inums
    ensures Inv(NewTree(inums))
  {
    var t := NewTree(inums);
    forall d: Inum, k: nat, x: Inum ensures Names(t, d, k, x) <==> d == ROOT && k == 1 && x == ROOT {
    }
    forall x: Inum | x in t ensures t[x].nlink == |Refs(t, x)| {
      if x == ROOT {
        RefsIff(t, ROOT, ROOT, 1);
        assert Refs(t, x) == {(ROOT, 1)};
      } else {
        assert Refs(t, x) == {};
      }
    }
    NewDirUnique(ROOT, ROOT);
  }

  /**
    What the condition excludes.  mkdir a, a file f, and rmdir a while it is open: the directory is dead
    but allocated, and a file created or linked in it gets a link count nobody can account for.
   */
  lemma RemovedWhileOpen() returns (made: Tree, filed: Tree, removed: Tree)
    ensures made == Created(NewTree({1, 2, 3, 4}), 2, Directory, ROOT, 2, "a") && Inv(made)
    ensures filed == Created(made, 3, File, ROOT, 3, "f") && Inv(filed)
    ensures CanUnlink(filed, 2, ROOT, 2) && removed == Unlinked(filed, 2, ROOT, 2) && Inv(removed)
    ensures CanCreate(removed, 4, File, 2, 2, "b") && !Inv(Created(removed, 4, File, 2, 2, "b"))
    ensures CanLink(removed, 3, 2, 2, "b") && !Inv(Linked(removed, 3, 2, 2, "b"))
  {
    hide Inv;
    var t := NewTree({1, 2, 3, 4});
    NewTreeOk({1, 2, 3, 4});
    CreateKeepsExactly(t, 2, Directory, ROOT, 2, "a");
    made := Created(t, 2, Directory, ROOT, 2, "a");
    CreateKeepsExactly(made, 3, File, ROOT, 3, "f");
    filed := Created(made, 3, File, ROOT, 3, "f");
    UnlinkKeeps(filed, 2, ROOT, 2);
    removed := Unlinked(filed, 2, ROOT, 2);
    CreateKeepsExactly(removed, 4, File, 2, 2, "b");
    LinkKeepsExactly(removed, 3, 2, 2, "b");
  }
}
