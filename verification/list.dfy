/** The intrusive circular doubly linked list of list.h. */
module List {

  class Node {
    var next: Node
    var prev: Node

    /** LIST_HEAD_INIT: a ring of one. */
    constructor ()
      ensures Ring([this]) && next == prev == this
    {
      next := this;
      prev := this;
    }
  }

  /** The index after i in a ring of n nodes, and the index before it. */
  function After(i: nat, n: nat): nat {
    if i + 1 < n then i + 1 else 0
  }

  function Before(i: nat, n: nat): int {
    if i == 0 then n - 1 else i - 1
  }

  predicate Distinct(s: seq<Node>) {
    forall i, j | 0 <= i < j < |s| :: s[i] != s[j]
  }

  /** The nodes of s, in this order, form one ring: next and prev are mutually inverse along it. */
  ghost predicate Ring(s: seq<Node>)
    reads s
  {
    && |s| > 0 && Distinct(s)
    && (forall i | 0 <= i < |s| :: s[i].next == s[After(i, |s|)])
    && (forall i | 0 <= i < |s| :: s[i].prev == s[Before(i, |s|)])
  }

  /** Some other ring, or none at all: what an operation must leave alone. */
  ghost predicate RingOrNone(t: seq<Node>)
    reads t
  {
    t == [] || Ring(t)
  }

  /** next and prev undo each other at every node of a ring. */
  lemma MutuallyInverse(s: seq<Node>, i: nat)
    requires Ring(s) && i < |s|
    ensures s[i].next in s && s[i].prev in s
    ensures s[i].next.prev == s[i] && s[i].prev.next == s[i]
  {
    assert Before(After(i, |s|), |s|) == i && After(Before(i, |s|), |s|) == i;
  }

  predicate Apart(s: seq<Node>, t: seq<Node>) {
    forall n | n in s :: n !in t
  }

  function Inserted(s: seq<Node>, k: nat, x: Node): seq<Node>
    requires k <= |s|
  {
    s[..k] + [x] + s[k..]
  }

  function Removed(s: seq<Node>, k: nat): seq<Node>
    requires k < |s|
  {
    s[..k] + s[k + 1..]
  }

  /** INIT_LIST_HEAD */
  method InitListHead(list: Node)
    modifies list
    ensures Ring([list])
  {
    list.next := list;
    list.prev := list;
  }

  /** __list_add: x goes between two neighbours, which may be one and the same node. t stands for
      any other ring. */
  method InsertBetween(x: Node, prev: Node, next: Node, ghost s: seq<Node>, ghost k: nat, ghost t: seq<Node>)
    requires Ring(s) && x !in s && 1 <= k <= |s|
    requires prev == s[k - 1] && next == s[After(k - 1, |s|)]
    requires RingOrNone(t) && x !in t && Apart(s, t)
    modifies x, prev`next, next`prev
    ensures Ring(Inserted(s, k, x)) && RingOrNone(t)
  {
    hide RingOrNone, Inserted, Before, After;
    Neighbours(s, k);
    next.prev := x;
    x.next := next;
    x.prev := prev;
    prev.next := x;
    InsertedRing(s, k, x);
    LeftAlone(t);
  }

  lemma Neighbours(s: seq<Node>, k: nat)
    requires 1 <= k <= |s|
    ensures After(k - 1, |s|) < |s| && s[k - 1] in s && s[After(k - 1, |s|)] in s
  {
  }

  /** A ring whose nodes keep their links stays a ring. */
  twostate lemma LeftAlone(t: seq<Node>)
    requires old(RingOrNone(t))
    requires forall n | n in t :: n.next == old(n.next) && n.prev == old(n.prev)
    ensures RingOrNone(t)
  {
    forall i | 0 <= i < |t| ensures t[i].next == old(t[i].next) && t[i].prev == old(t[i].prev) {
      assert t[i] in t;
    }
  }

  /** Once the four links around x are in place, the longer sequence is a ring. */
  lemma InsertedRing(s: seq<Node>, k: nat, x: Node)
    requires Distinct(s) && x !in s && 1 <= k <= |s|
    requires s[k - 1].next == x && x.prev == s[k - 1]
    requires s[After(k - 1, |s|)].prev == x && x.next == s[After(k - 1, |s|)]
    requires forall i | 0 <= i < |s| && i != k - 1 :: s[i].next == s[After(i, |s|)]
    requires forall i | 0 <= i < |s| && i != After(k - 1, |s|) :: s[i].prev == s[Before(i, |s|)]
    ensures Ring(Inserted(s, k, x))
  {
    var r := Inserted(s, k, x);
    InsertedDistinct(s, k, x);
    forall i | 0 <= i < |r|
      ensures r[i].next == r[After(i, |r|)] && r[i].prev == r[Before(i, |r|)]
    {
      InsertedLinks(s, k, x, i);
    }
  }

  lemma InsertedDistinct(s: seq<Node>, k: nat, x: Node)
    requires Distinct(s) && x !in s && k <= |s|
    ensures Distinct(Inserted(s, k, x))
  {
  }

  lemma InsertedAt(s: seq<Node>, k: nat, x: Node, i: nat)
    requires k <= |s| && i <= |s|
    ensures |Inserted(s, k, x)| == |s| + 1
    ensures Inserted(s, k, x)[i] == if i < k then s[i] else if i == k then x else s[i - 1]
  {
  }

  lemma InsertedLinks(s: seq<Node>, k: nat, x: Node, i: nat)
    requires 1 <= k <= |s| && i <= |s|
    requires s[k - 1].next == x && x.prev == s[k - 1]
    requires s[After(k - 1, |s|)].prev == x && x.next == s[After(k - 1, |s|)]
    requires forall i | 0 <= i < |s| && i != k - 1 :: s[i].next == s[After(i, |s|)]
    requires forall i | 0 <= i < |s| && i != After(k - 1, |s|) :: s[i].prev == s[Before(i, |s|)]
    ensures |Inserted(s, k, x)| == |s| + 1
    ensures Inserted(s, k, x)[i].next == Inserted(s, k, x)[After(i, |s| + 1)]
    ensures Inserted(s, k, x)[i].prev == Inserted(s, k, x)[Before(i, |s| + 1)]
  {
    hide Inserted;
    InsertedAt(s, k, x, i);
    InsertedAt(s, k, x, After(i, |s| + 1));
    InsertedAt(s, k, x, Before(i, |s| + 1));
  }

  /** list_add: push to the front. */
  method ListAdd(x: Node, head: Node, ghost s: seq<Node>, ghost t: seq<Node>)
    requires Ring(s) && head == s[0] && x !in s
    requires RingOrNone(t) && x !in t && Apart(s, t)
    modifies x, head`next, head.next`prev
    ensures Ring([head, x] + s[1..]) && RingOrNone(t)
  {
    assert Inserted(s, 1, x) == [head, x] + s[1..];
    InsertBetween(x, head, head.next, s, 1, t);
  }

  /** list_add_tail: push to the back. */
  method ListAddTail(x: Node, head: Node, ghost s: seq<Node>, ghost t: seq<Node>)
    requires Ring(s) && head == s[0] && x !in s
    requires RingOrNone(t) && x !in t && Apart(s, t)
    modifies x, head`prev, head.prev`next
    ensures Ring(s + [x]) && RingOrNone(t)
  {
    assert Inserted(s, |s|, x) == s + [x];
    InsertBetween(x, head.prev, head, s, |s|, t);
  }

  /** list_del, at any place k: the ring closes behind the entry, whose own links stay as they were. */
  method ListDel(entry: Node, ghost s: seq<Node>, ghost k: nat, ghost t: seq<Node>)
    requires Ring(s) && k < |s| && entry == s[k]
    requires RingOrNone(t) && Apart(s, t)
    modifies entry.prev`next, entry.next`prev
    ensures if |s| == 1 then Ring(s) else Ring(Removed(s, k))
    ensures |s| > 1 ==> entry.next == old(entry.next) && entry.prev == old(entry.prev)
    ensures RingOrNone(t)
  {
    var prev, next := entry.prev, entry.next;
    next.prev := prev;
    prev.next := next;
    assert prev in s && next in s;
    if |s| > 1 { RemovedRing(s, k); }
  }

  /** Once its neighbours are linked, the ring without node k is a ring. */
  lemma RemovedRing(s: seq<Node>, k: nat)
    requires Distinct(s) && k < |s| && |s| > 1
    requires s[Before(k, |s|)].next == s[After(k, |s|)] && s[After(k, |s|)].prev == s[Before(k, |s|)]
    requires forall i | 0 <= i < |s| && i != Before(k, |s|) :: s[i].next == s[After(i, |s|)]
    requires forall i | 0 <= i < |s| && i != After(k, |s|) :: s[i].prev == s[Before(i, |s|)]
    ensures Ring(Removed(s, k))
  {
    var r := Removed(s, k);
    RemovedDistinct(s, k);
    forall i | 0 <= i < |r|
      ensures r[i].next == r[After(i, |r|)] && r[i].prev == r[Before(i, |r|)]
    {
      RemovedLinks(s, k, i);
    }
  }

  lemma RemovedDistinct(s: seq<Node>, k: nat)
    requires Distinct(s) && k < |s|
    ensures Distinct(Removed(s, k))
  {
  }

  lemma RemovedAt(s: seq<Node>, k: nat, i: nat)
    requires k < |s| && i < |s| - 1
    ensures |Removed(s, k)| == |s| - 1
    ensures Removed(s, k)[i] == s[if i < k then i else i + 1]
  {
  }

  lemma RemovedLinks(s: seq<Node>, k: nat, i: nat)
    requires k < |s| && i < |s| - 1
    requires s[Before(k, |s|)].next == s[After(k, |s|)] && s[After(k, |s|)].prev == s[Before(k, |s|)]
    requires forall i | 0 <= i < |s| && i != Before(k, |s|) :: s[i].next == s[After(i, |s|)]
    requires forall i | 0 <= i < |s| && i != After(k, |s|) :: s[i].prev == s[Before(i, |s|)]
    ensures |Removed(s, k)| == |s| - 1
    ensures Removed(s, k)[i].next == Removed(s, k)[After(i, |s| - 1)]
    ensures Removed(s, k)[i].prev == Removed(s, k)[Before(i, |s| - 1)]
  {
    hide Removed;
    RemovedAt(s, k, i);
    RemovedAt(s, k, After(i, |s| - 1));
    RemovedAt(s, k, Before(i, |s| - 1));
  }

  /** list_replace: x takes the place of o, also when o is alone and the writes alias. */
  method ListReplace(o: Node, x: Node, ghost s: seq<Node>, ghost k: nat, ghost t: seq<Node>)
    requires Ring(s) && k < |s| && o == s[k] && x !in s
    requires RingOrNone(t) && x !in t && Apart(s, t)
    modifies x, o.prev`next, o.next`prev
    ensures Ring(s[k := x]) && RingOrNone(t)
  {
    assert o.prev in s && o.next in s;
    x.next := o.next;
    x.next.prev := x;
    x.prev := o.prev;
    x.prev.next := x;
    if |s| == 1 {
      assert s[k := x] == [x];
    } else {
      ReplacedRing(s, k, x);
    }
  }

  /** Once the four links around x are in place, x stands where node k stood. */
  lemma ReplacedRing(s: seq<Node>, k: nat, x: Node)
    requires Distinct(s) && x !in s && k < |s| && |s| > 1
    requires x.next == s[After(k, |s|)] && s[After(k, |s|)].prev == x
    requires x.prev == s[Before(k, |s|)] && s[Before(k, |s|)].next == x
    requires forall i | 0 <= i < |s| && i != k && i != Before(k, |s|) :: s[i].next == s[After(i, |s|)]
    requires forall i | 0 <= i < |s| && i != k && i != After(k, |s|) :: s[i].prev == s[Before(i, |s|)]
    ensures Ring(s[k := x])
  {
    var r := s[k := x];
    forall i | 0 <= i < |r|
      ensures r[i].next == r[After(i, |r|)] && r[i].prev == r[Before(i, |r|)]
    {
    }
  }

  /** list_replace_init: the replaced node ends up as a ring of its own. */
  method ListReplaceInit(o: Node, x: Node, ghost s: seq<Node>, ghost k: nat, ghost t: seq<Node>)
    requires Ring(s) && k < |s| && o == s[k] && x !in s
    requires RingOrNone(t) && x !in t && Apart(s, t)
    modifies x, o, o.prev`next, o.next`prev
    ensures Ring(s[k := x]) && Ring([o]) && RingOrNone(t)
  {
    ListReplace(o, x, s, k, t);
    assert o in s && o !in s[k := x];
    InitListHead(o);
  }

  /** list_empty */
  method ListEmpty(head: Node, ghost s: seq<Node>) returns (empty: bool)
    requires Ring(s) && head == s[0]
    ensures empty <==> s == [head]
  {
    empty := head.next == head;
  }

  /** Deleting the node just added restores every link of the ring. */
  method AddThenDelete(x: Node, head: Node, ghost s: seq<Node>, ghost t: seq<Node>)
    requires Ring(s) && head == s[0] && x !in s
    requires RingOrNone(t) && x !in t && Apart(s, t)
    modifies x, head, head.next
    ensures Ring(s) && RingOrNone(t)
    ensures forall n | n in s :: n.next == old(n.next) && n.prev == old(n.prev)
  {
    ListAdd(x, head, s, t);
    ghost var r := [head, x] + s[1..];
    assert Removed(r, 1) == s;
    assert r[1] == x && r[0] == head && x.prev == head;
    assert Apart(r, t);
    assert x.next == r[After(1, |r|)];
    ListDel(x, r, 1, t);
  }

  /** The nodes of s that are kept, in order. */
  function Kept(s: seq<Node>, keep: Node -> bool): seq<Node> {
    if s == [] then [] else Kept(s[..|s| - 1], keep) + if keep(s[|s| - 1]) then [s[|s| - 1]] else []
  }

  lemma KeptNext(s: seq<Node>, i: nat, keep: Node -> bool)
    requires i < |s|
    ensures Kept(s[..i + 1], keep) == Kept(s[..i], keep) + if keep(s[i]) then [s[i]] else []
  {
    assert s[..i + 1][..i] == s[..i];
  }

  lemma {:induction false} KeptAmong(s: seq<Node>, keep: Node -> bool)
    ensures forall n | n in Kept(s, keep) :: n in s
  {
    if s == [] {
    } else {
      KeptAmong(s[..|s| - 1], keep);
    }
  }

  /** Where the sweep stands before its step i: the nodes kept so far, then the ones still to visit. */
  function Swept(s: seq<Node>, i: nat, keep: Node -> bool): seq<Node>
    requires 1 <= i <= |s|
  {
    [s[0]] + Kept(s[1..][..i - 1], keep) + s[i..]
  }

  lemma SweptHere(s: seq<Node>, i: nat, keep: Node -> bool)
    requires 1 <= i < |s|
    ensures var k := 1 + |Kept(s[1..][..i - 1], keep)|;
      && k < |Swept(s, i, keep)| && Swept(s, i, keep)[k] == s[i]
      && Swept(s, i, keep)[After(k, |Swept(s, i, keep)|)] == s[After(i, |s|)]
  {
  }

  lemma SweptStep(s: seq<Node>, i: nat, keep: Node -> bool)
    requires 1 <= i < |s|
    ensures var k := 1 + |Kept(s[1..][..i - 1], keep)|;
      && k < |Swept(s, i, keep)|
      && Swept(s, i + 1, keep) == if keep(s[i]) then Swept(s, i, keep) else Removed(Swept(s, i, keep), k)
  {
    KeptNext(s[1..], i - 1, keep);
  }

  lemma SweptEnds(s: seq<Node>, keep: Node -> bool)
    requires |s| > 0
    ensures Swept(s, 1, keep) == s
    ensures Swept(s, |s|, keep) == [s[0]] + Kept(s[1..], keep)
  {
    assert s[1..][..|s| - 1] == s[1..];
  }

  lemma SweptAmong(s: seq<Node>, i: nat, keep: Node -> bool)
    requires 1 <= i <= |s|
    ensures forall n | n in Swept(s, i, keep) :: n in s
  {
    KeptAmong(s[1..][..i - 1], keep);
  }

  lemma SweptNext(s: seq<Node>, i: nat, keep: Node -> bool)
    requires 1 <= i < |s| && Ring(Swept(s, i, keep))
    ensures s[i].next == s[After(i, |s|)]
  {
    hide Swept;
    SweptHere(s, i, keep);
  }

  lemma OneMore(s: seq<Node>, i: nat)
    requires 1 <= i < |s|
    ensures s[1..i + 1] == s[1..i] + [s[i]]
  {
  }

  /** The loop body's list_del at step i of the sweep. */
  method DeleteSwept(pos: Node, keep: Node -> bool, ghost s: seq<Node>, ghost i: nat, ghost t: seq<Node>)
    requires 1 <= i < |s| && pos == s[i] && !keep(pos)
    requires Ring(Swept(s, i, keep)) && RingOrNone(t) && Apart(s, t)
    modifies s
    ensures Ring(Swept(s, i + 1, keep)) && RingOrNone(t)
  {
    hide Swept;
    ghost var r, k := Swept(s, i, keep), 1 + |Kept(s[1..][..i - 1], keep)|;
    SweptHere(s, i, keep);
    SweptStep(s, i, keep);
    SweptAmong(s, i, keep);
    MutuallyInverse(r, k);
    ListDel(pos, r, k, t);
  }

  /** list_for_each_safe over the ring s with a body that deletes the current node unless keep holds:
      every original node is visited once, in order, and the ring of the nodes kept is left. */
  method ForEachSafe(head: Node, keep: Node -> bool, ghost s: seq<Node>, ghost t: seq<Node>)
    returns (visited: seq<Node>)
    requires Ring(s) && head == s[0]
    requires RingOrNone(t) && Apart(s, t)
    modifies s
    ensures visited == s[1..]
    ensures Ring([head] + Kept(s[1..], keep)) && RingOrNone(t)
  {
    hide Swept;
    visited := [];
    var pos := head.next;
    var n := pos.next;
    ghost var i := 1;
    SweptEnds(s, keep);
    while pos != head
      invariant 1 <= i <= |s|
      invariant visited == s[1..i]
      invariant Ring(Swept(s, i, keep)) && RingOrNone(t)
      invariant pos == s[if i < |s| then i else 0]
      invariant n == pos.next
      decreases |s| - i
    {
      OneMore(s, i);
      SweptNext(s, i, keep);
      visited := visited + [pos];
      if !keep(pos) {
        DeleteSwept(pos, keep, s, i, t);
      } else {
        SweptStep(s, i, keep);
      }
      i := i + 1;
      pos := n;
      n := pos.next;
    }
  }
}
