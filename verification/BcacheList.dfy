/** The circular doubly linked list through the buffers of bio.c; the list head is node `head`. */
module BcacheList {

  /** Node number i of the circle: the head, then the list. */
  function At(head: nat, order: seq<nat>, i: nat): nat {
    if 1 <= i <= |order| then order[i - 1] else head
  }

  ghost predicate Distinct(order: seq<nat>) {
    forall i, j :: 0 <= i < j < |order| ==> order[i] != order[j]
  }

  /** next and prev link head, order[0], order[1], ... and back to head, in both directions. */
  ghost predicate Chain(next: seq<nat>, prev: seq<nat>, head: nat, order: seq<nat>) {
    && |next| == |prev| == head + 1
    && Distinct(order) && (forall i :: 0 <= i < |order| ==> order[i] < head)
    && (forall i: nat :: i <= |order| ==>
          next[At(head, order, i)] == At(head, order, i + 1) && prev[At(head, order, i + 1)] == At(head, order, i))
  }

  function Without(order: seq<nat>, i: nat): seq<nat>
    requires i < |order|
  {
    order[..i] + order[i + 1..]
  }

  lemma WithoutAt(head: nat, order: seq<nat>, i: nat, k: nat)
    requires i < |order| && k <= |order|
    ensures At(head, Without(order, i), k) == At(head, order, if k <= i then k else k + 1)
  {
  }

  /** The neighbours of an element are linked to each other. */
  lemma Unlink(next: seq<nat>, prev: seq<nat>, head: nat, order: seq<nat>, i: nat)
    requires Chain(next, prev, head, order) && i < |order|
    ensures var b := order[i];
            && next[b] <= head && prev[b] <= head && next[b] != b && prev[b] != b
            && Chain(next[prev[b] := next[b]], prev[next[b] := prev[b]], head, Without(order, i))
            && b !in Without(order, i)
  {
    var b, r := order[i], Without(order, i);
    assert At(head, order, i + 1) == b;
    assert next[b] == At(head, order, i + 2) && prev[b] == At(head, order, i);
    var n, p := next[prev[b] := next[b]], prev[next[b] := prev[b]];
    forall k | 0 <= k < |r| ensures r[k] == order[if k < i then k else k + 1] {
    }
    forall k: nat | k <= |r|
      ensures n[At(head, r, k)] == At(head, r, k + 1) && p[At(head, r, k + 1)] == At(head, r, k)
    {
      WithoutAt(head, order, i, k);
      WithoutAt(head, order, i, k + 1);
    }
  }

  /** An element is linked in between the head and the first element. */
  lemma PushFront(next: seq<nat>, prev: seq<nat>, head: nat, order: seq<nat>, b: nat)
    requires Chain(next, prev, head, order) && b < head && b !in order
    ensures next[head] <= head
    ensures var n := next[b := next[head]];
            var p := prev[b := head];
            Chain(n[head := b], p[n[head] := b], head, [b] + order)
  {
    var r := [b] + order;
    assert At(head, order, 0) == head && next[head] == At(head, order, 1);
    var n := next[b := next[head]];
    var p := prev[b := head];
    var n', p' := n[head := b], p[n[head] := b];
    forall k: nat | k <= |r|
      ensures n'[At(head, r, k)] == At(head, r, k + 1) && p'[At(head, r, k + 1)] == At(head, r, k)
    {
      if k >= 1 {
        assert At(head, r, k + 1) == At(head, order, k) && (k >= 2 ==> At(head, r, k) == At(head, order, k - 1));
      }
      assert At(head, r, 1) == b;
    }
  }
}
