/**
  The directory tree above the byte store.  A directory is its sequence of entries; entry 0 is
  "." and entry 1 is "..", and an entry with inode number 0 is unused.  A directory is live
  while its link count is positive; an unlinked one may stay allocated while it is open.
 */
module LinkSpec {

  type Inum = nat

  const ROOT: Inum := 1

  datatype Kind = Free | Directory | File | Device

  datatype Entry = Entry(inum: Inum, name: string)

  datatype Inode = Inode(kind: Kind, nlink: int, ents: seq<Entry>)

  type Tree = map<Inum, Inode>

  predicate IsDir(t: Tree, d: Inum) { d in t && t[d].kind.Directory? }

  predicate Live(t: Tree, d: Inum) { IsDir(t, d) && t[d].nlink > 0 }

  /** Entry k of live directory d, not its ".", names x. */
  predicate Names(t: Tree, d: Inum, k: nat, x: Inum) {
    Live(t, d) && 1 <= k < |t[d].ents| && t[d].ents[k].inum == x
  }

  /** All entries that count as links to x. */
  ghost function Refs(t: Tree, x: Inum): set<(Inum, nat)> {
    set d: Inum, k: nat | d in t && k < |t[d].ents| && Names(t, d, k, x) :: (d, k)
  }

  // ---- the invariant --------------------------------------------------------------------------------

  /** Link counts are right. */
  ghost predicate Counted(t: Tree) { forall x: Inum :: x in t ==> t[x].nlink == |Refs(t, x)| }

  predicate UniqueNames(ents: seq<Entry>) {
    forall i, j :: 0 <= i < j < |ents| && ents[i].inum != 0 && ents[j].inum != 0 ==> ents[i].name != ents[j].name
  }

  predicate Shape(t: Tree, d: Inum)
    requires d in t
  {
    var es := t[d].ents;
    && |es| >= 2 && es[0] == Entry(d, ".") && es[1].name == ".." && es[1].inum != 0 && UniqueNames(es)
    && (forall k :: 0 <= k < |es| && es[k].inum != 0 ==> es[k].inum in t)
    && (t[d].nlink <= 0 ==> Unused(es))
  }

  /** Nothing but "." and "..": what isdirempty looks for. */
  predicate Unused(es: seq<Entry>) { forall k :: 2 <= k < |es| ==> es[k].inum == 0 }

  ghost predicate Shapes(t: Tree) {
    && 0 !in t
    && (forall d: Inum :: IsDir(t, d) ==> Shape(t, d))
    && (forall x: Inum :: x in t && t[x].kind.Free? ==> t[x].nlink == 0)
  }

  /** The ".." of a live directory names the live directory that lists it; the root is its own. */
  ghost predicate Parented(t: Tree, c: Inum)
    requires IsDir(t, c) && |t[c].ents| >= 2
  {
    var p := t[c].ents[1].inum;
    if c == ROOT then p == ROOT else Live(t, p) && Listed(t, p, c)
  }

  ghost predicate Listed(t: Tree, p: Inum, c: Inum) { exists k :: k >= 2 && Names(t, p, k, c) }

  ghost predicate Rooted(t: Tree) {
    && Live(t, ROOT)
    && (forall c: Inum :: Live(t, c) ==> |t[c].ents| >= 2 && Parented(t, c))
  }

  predicate OnlySlot(es: seq<Entry>, k: nat)
    requires k < |es|
  {
    forall j :: 2 <= j < |es| && j != k ==> es[j].inum != es[k].inum
  }

  /** A directory is listed at most once, in the directory its ".." names, and the root nowhere. */
  ghost predicate OneName(t: Tree) {
    forall x: Inum, d: Inum, k: nat :: IsDir(t, x) && Names(t, d, k, x) && k >= 2 ==> ListedOnce(t, x, d, k)
  }

  predicate ListedOnce(t: Tree, x: Inum, d: Inum, k: nat) {
    && x != ROOT && x in t && |t[x].ents| >= 2 && t[x].ents[1].inum == d
    && d in t && k < |t[d].ents| && OnlySlot(t[d].ents, k)
  }

  ghost predicate Inv(t: Tree) { Counted(t) && Shapes(t) && Rooted(t) && OneName(t) }

  // ---- what the operations do ----------------------------------------------------------------------------

  function Put(es: seq<Entry>, k: nat, e: Entry): seq<Entry> {
    if k < |es| then es[k := e] else es + [e]
  }

  /** Slot k is where dirlink writes: the first unused entry, or the end. */
  predicate FreeSlot(es: seq<Entry>, k: nat) {
    k <= |es| && (k < |es| ==> es[k].inum == 0)
  }

  predicate Absent(es: seq<Entry>, name: string) {
    forall i :: 0 <= i < |es| && es[i].inum != 0 ==> es[i].name != name
  }

  function AddLink(t: Tree, x: Inum, n: int): Tree {
    if x in t then t[x := t[x].(nlink := t[x].nlink + n)] else t
  }

  function SetEntry(t: Tree, d: Inum, k: nat, e: Entry): Tree {
    if d in t then t[d := t[d].(ents := Put(t[d].ents, k, e))] else t
  }

  /** link: one more name for a file. */
  function Linked(t: Tree, x: Inum, d: Inum, k: nat, name: string): Tree {
    SetEntry(AddLink(t, x, 1), d, k, Entry(x, name))
  }

  /** create: a free inode becomes a file, a device, or a directory with its two entries. */
  function Created(t: Tree, x: Inum, kind: Kind, d: Inum, k: nat, name: string): Tree {
    var t1 := t[x := Inode(kind, 1, if kind.Directory? then [Entry(x, "."), Entry(d, "..")] else [])];
    var t2 := if kind.Directory? then AddLink(t1, d, 1) else t1;
    SetEntry(t2, d, k, Entry(x, name))
  }

  function Unlinked(t: Tree, x: Inum, d: Inum, k: nat): Tree {
    var t1 := SetEntry(t, d, k, Entry(0, ""));
    AddLink(if IsDir(t, x) then AddLink(t1, d, -1) else t1, x, -1)
  }

  /** iput of the last reference to an inode without links. */
  function Freed(t: Tree, x: Inum): Tree {
    if x in t && t[x].nlink == 0 then t[x := Inode(Free, 0, [])] else t
  }

  /** A lookup of name in directory d would answer x. */
  predicate Finds(t: Tree, d: Inum, name: string, x: Inum) {
    IsDir(t, d) && x != 0 && Entry(x, name) in t[d].ents
  }

  // ---- counting -----------------------------------------------------------------------------------------------

  lemma RefsIff(t: Tree, x: Inum, d: Inum, k: nat)
    ensures (d, k) in Refs(t, x) <==> Names(t, d, k, x)
  {
  }

  lemma SameRefs(t: Tree, t': Tree, x: Inum)
    requires forall d: Inum, k: nat :: Names(t, d, k, x) <==> Names(t', d, k, x)
    ensures Refs(t, x) == Refs(t', x)
  {
  }

  lemma OneMoreRef(t: Tree, t': Tree, x: Inum, d: Inum, k: nat)
    requires !Names(t, d, k, x) && Names(t', d, k, x)
    requires forall e: Inum, j: nat :: (e, j) != (d, k) ==> (Names(t, e, j, x) <==> Names(t', e, j, x))
    ensures |Refs(t', x)| == |Refs(t, x)| + 1
  {
    assert Refs(t', x) == Refs(t, x) + {(d, k)} by {
      RefsIff(t, x, d, k);
      RefsIff(t', x, d, k);
      forall r: (Inum, nat) | r in Refs(t, x) ensures r in Refs(t', x) {
        RefsIff(t, x, r.0, r.1);
        RefsIff(t', x, r.0, r.1);
      }
      forall r: (Inum, nat) | r in Refs(t', x) && r != (d, k) ensures r in Refs(t, x) {
        RefsIff(t, x, r.0, r.1);
        RefsIff(t', x, r.0, r.1);
      }
    }
  }

  lemma NamedHasLink(t: Tree, x: Inum, d: Inum, k: nat)
    requires Counted(t) && x in t && Names(t, d, k, x)
    ensures t[x].nlink >= 1
  {
    RefsIff(t, x, d, k);
  }

  lemma NotNamed(t: Tree, x: Inum, d: Inum, k: nat)
    requires Counted(t) && x in t && t[x].nlink == 0
    ensures !Names(t, d, k, x)
  {
    if Names(t, d, k, x) { NamedHasLink(t, x, d, k); assert false; }
  }
}
