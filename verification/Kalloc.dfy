/** The physical page allocator: a free list threaded through the free pages themselves. */
module Kalloc {
  import opened Params

  const PHYSTOP := 0x0E00_0000

  predicate Aligned(p: nat) { p % PGSIZE == 0 }

  /** kfree's test: a page of allocatable memory. */
  predicate Legal(end: nat, v: nat) { v % PGSIZE == 0 && end <= v < KERNBASE + PHYSTOP }

  /** The i-th page of the list, or null after the last. */
  ghost function Page(list: seq<nat>, i: nat): nat {
    if i < |list| then list[i] else 0
  }

  ghost predicate NoDup(list: seq<nat>) { forall i, j :: 0 <= i < j < |list| ==> list[i] != list[j] }

  /** The links lead from head through the pages of the list, each a page and there once, to null. */
  ghost predicate Chained(end: nat, head: nat, next: map<nat, nat>, list: seq<nat>) {
    && head == Page(list, 0) && NoDup(list)
    && (forall i :: 0 <= i < |list| ==> Legal(end, list[i]) && list[i] in next)
    && (forall i :: 0 <= i < |list| ==> next[list[i]] == Page(list, i + 1))
  }

  lemma Pushed(end: nat, head: nat, next: map<nat, nat>, list: seq<nat>, v: nat)
    requires Chained(end, head, next, list) && Legal(end, v)
    ensures Chained(end, v, next[v := head], [v] + list) <==> v !in list
  {
    var list', next' := [v] + list, next[v := head];
    if v in list {
      var i :| 0 <= i < |list| && list[i] == v;
      assert list'[i + 1] == list'[0];
    } else {
      forall i | 0 <= i < |list'|
        ensures Legal(end, list'[i]) && list'[i] in next' && next'[list'[i]] == Page(list', i + 1)
      {
        assert i > 0 ==> list'[i] == list[i - 1] && Page(list', i + 1) == Page(list, i);
      }
    }
  }

  /** A list that started at v and followed the links would repeat the pages before v for ever. */
  lemma {:induction false} Follows(end: nat, head: nat, next: map<nat, nat>, list: seq<nat>, v: nat, other: seq<nat>,
                                   at: nat, k: nat)
    requires Chained(end, head, next, list) && at < |list| && list[at] == v && k <= at
    requires Chained(end, v, next[v := head], other) && end > 0
    ensures k + 1 < |other| && other[0] == v && other[k + 1] == list[k]
  {
    hide Chained;
    var links := next[v := head];
    Links(end, head, next, list);
    Links(end, v, links, other);
    LinkAt(end, v, links, other, k);
    if k > 0 {
      Follows(end, head, next, list, v, other, at, k - 1);
      LinkAt(end, head, next, list, k - 1);
      Apart(end, head, next, list, k - 1, at);
    }
    Positive(end, head, next, list, k);
    Positive(end, head, next, list, at);
  }

  lemma Links(end: nat, head: nat, next: map<nat, nat>, list: seq<nat>)
    requires Chained(end, head, next, list)
    ensures head == Page(list, 0)
  {
  }

  lemma LinkAt(end: nat, head: nat, next: map<nat, nat>, list: seq<nat>, i: nat)
    requires Chained(end, head, next, list)
    ensures i < |list| ==> list[i] in next && next[list[i]] == Page(list, i + 1)
  {
  }

  lemma Apart(end: nat, head: nat, next: map<nat, nat>, list: seq<nat>, i: nat, j: nat)
    requires Chained(end, head, next, list) && i < j < |list|
    ensures list[i] != list[j]
  {
  }

  lemma Positive(end: nat, head: nat, next: map<nat, nat>, list: seq<nat>, i: nat)
    requires Chained(end, head, next, list) && i < |list| && end > 0
    ensures list[i] != 0
  {
  }

  /** Pushing a page that is on the list already leaves links that no list fits. */
  lemma Cyclic(end: nat, head: nat, next: map<nat, nat>, list: seq<nat>, v: nat, other: seq<nat>)
    requires Chained(end, head, next, list) && v in list && end > 0
    ensures !Chained(end, v, next[v := head], other)
  {
    if Chained(end, v, next[v := head], other) {
      var at: nat :| at < |list| && list[at] == v;
      Follows(end, head, next, list, v, other, at, at);
      assert false;
    }
  }

  lemma Popped(end: nat, head: nat, next: map<nat, nat>, list: seq<nat>)
    requires Chained(end, head, next, list) && list != []
    ensures head == list[0] && head in next && Chained(end, next[head], next, list[1..]) && head !in list[1..]
  {
    assert forall i: nat :: Page(list[1..], i) == Page(list, i + 1);
  }

  class Kmem {
    const end: nat                 // first address after the kernel
    var head: nat                  // kmem.freelist; 0 is null
    var next: map<nat, nat>        // the link stored in each free page
    ghost var list: seq<nat>

    ghost predicate Valid()
      reads this
    {
      end > KERNBASE && Chained(end, head, next, list)
    }

    constructor (end: nat)
      requires end > KERNBASE
      ensures Valid() && list == [] && this.end == end
    {
      this.end := end;
      head, next, list := 0, map[], [];
    }

    /** Panics, here ok == false, on anything but a page.  Freeing a page that is free already is not
        noticed, and is exactly what leaves links that no list of pages fits. */
    method Kfree(v: nat) returns (ok: bool)
      requires Valid()
      modifies this
      ensures ok == Legal(end, v) && list == if ok then [v] + old(list) else old(list)
      ensures if ok then head == v && next == old(next)[v := old(head)] else head == old(head) && next == old(next)
      ensures Valid() <==> !ok || v !in old(list)
      ensures (exists other :: Chained(end, head, next, other)) <==> !ok || v !in old(list)
    {
      hide Chained;
      ok := v % PGSIZE == 0 && end <= v < KERNBASE + PHYSTOP;
      if ok {
        Pushed(end, head, next, list, v);
        if v in list {
          ghost var links := next[v := head];
          forall other ensures !Chained(end, v, links, other) {
            Cyclic(end, head, next, list, v, other);
          }
        }
        next := next[v := head];
        head := v;
        list := [v] + list;
      }
    }

    /** The most recently freed page, or 0 exactly when none is free.  Whether the links still make a list
        is not looked at: the page at the head is handed out and its link followed. */
    method Kalloc() returns (v: nat)
      requires head != 0 ==> head in next
      modifies this`head, this`list
      ensures v == old(head) && head == if v == 0 then 0 else next[v]
      ensures old(Valid()) ==> Valid() && (v == 0 <==> old(list) == [])
      ensures old(Valid()) ==> if v == 0 then list == [] else old(list) == [v] + list && v !in list && Legal(end, v)
    {
      v := head;
      if v != 0 {
        ghost var rest := if list == [] then [] else list[1..];
        if Valid() {
          Popped(end, head, next, list);
          assert list == [v] + rest;
        }
        head := next[v];
        list := rest;
      }
    }

    /** Frees exactly the whole pages between the two addresses. */
    method Freerange(vstart: nat, vend: nat) returns (ok: bool)
      requires Valid()
      requires forall p :: p in list ==> p + PGSIZE <= vstart || vend <= p
      modifies this
      ensures Valid()
      ensures ok == forall p: nat :: Aligned(p) && vstart <= p && p + PGSIZE <= vend ==> Legal(end, p)
      ensures ok ==> forall p: nat :: p in list <==> p in old(list) || (Aligned(p) && vstart <= p && p + PGSIZE <= vend)
    {
      hide Between, Aligned, Legal, Chained;
      var p := (vstart + PGSIZE - 1) / PGSIZE * PGSIZE;
      RoundUp(vstart, list);
      while p + PGSIZE <= vend
        invariant Valid() && vstart <= p && Aligned(p) && Between(old(list), list, vstart, p)
        invariant forall q: nat :: Aligned(q) && vstart <= q < p ==> Legal(end, q) && q + PGSIZE <= vend
        decreases vend - p
      {
        NextPage(old(list), list, vstart, p);
        var freed := Kfree(p);
        if !freed {
          return false;
        }
        p := p + PGSIZE;
      }
      Done(old(list), list, vstart, p, vend);
      ok := true;
    }
  }

  /** The same page freed twice is handed out twice. */
  method FreedTwice() returns (m: Kmem, p: nat, first: nat, second: nat)
    ensures fresh(m) && Legal(m.end, p) && first == second == p
  {
    m := new Kmem(KERNBASE + PGSIZE);
    p := KERNBASE + PGSIZE;
    var once := m.Kfree(p);
    var twice := m.Kfree(p);
    first := m.Kalloc();
    second := m.Kalloc();
  }

  /** The list has gained exactly the aligned pages from lo up to p. */
  ghost predicate Between(before: seq<nat>, list: seq<nat>, lo: nat, p: nat) {
    forall q: nat :: q in list <==> q in before || (Aligned(q) && lo <= q < p)
  }

  lemma RoundUp(v: nat, list: seq<nat>)
    ensures var p := (v + PGSIZE - 1) / PGSIZE * PGSIZE;
            v <= p && Aligned(p) && Between(list, list, v, p) && forall q: nat :: Aligned(q) && v <= q ==> p <= q
  {
  }

  lemma NextPage(before: seq<nat>, list: seq<nat>, lo: nat, p: nat)
    requires Aligned(p) && lo <= p && Between(before, list, lo, p)
    ensures Aligned(p + PGSIZE) && Between(before, [p] + list, lo, p + PGSIZE) && (p in list <==> p in before)
    ensures forall q: nat :: Aligned(q) && q < p + PGSIZE ==> q <= p
  {
  }

  lemma Done(before: seq<nat>, list: seq<nat>, lo: nat, p: nat, vend: nat)
    requires Aligned(p) && lo <= p && vend < p + PGSIZE && Between(before, list, lo, p)
    requires forall q: nat :: Aligned(q) && lo <= q < p ==> q + PGSIZE <= vend
    ensures forall q: nat :: Aligned(q) && lo <= q && q + PGSIZE <= vend ==> q < p
    ensures forall q: nat :: q in list <==> q in before || (Aligned(q) && lo <= q && q + PGSIZE <= vend)
  {
  }
}
