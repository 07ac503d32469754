/** Circular doubly linked lists (include/common/list.h) on the heap.

A list is a ring of nodes whose first node is the list head.  The lists of a
system are rings without common nodes, and the operations are proved to act on
them as on sequences.
*/
module IntrusiveList {
  import opened Basics

  class Node {
    var next: Node
    var prev: Node

    /** INIT_LIST_HEAD. */
    constructor ()
      ensures next == this && prev == this && Ring([this])
    {
      next, prev := this, this;
    }
  }

  ghost function Succ(i: nat, n: nat): nat {
    if i + 1 == n then 0 else i + 1
  }

  ghost function Pred(i: nat, n: nat): nat
    requires n > 0
  {
    if i == 0 then n - 1 else i - 1
  }

  /** The nodes r form a ring, in this order. */
  ghost predicate Ring(r: seq<Node>)
    reads r
  {
    && r != [] && NoDup(r)
    && (forall i {:trigger r[i].next} :: 0 <= i < |r| ==> r[i].next == r[Succ(i, |r|)])
    && (forall i {:trigger r[i].prev} :: 0 <= i < |r| ==> r[i].prev == r[Pred(i, |r|)])
  }

  ghost predicate Apart(a: seq<Node>, b: seq<Node>) {
    forall i, j :: 0 <= i < |a| && 0 <= j < |b| ==> a[i] != b[j]
  }

  /** list_empty. */
  method ListEmpty(head: Node, ghost r: seq<Node>) returns (empty: bool)
    requires Ring(r) && r[0] == head
    ensures empty <==> r == [head]
  {
    assert r[0].next == r[Succ(0, |r|)];
    empty := head.next == head;
  }

  /** list_add: the node is appended at the tail. */
  method ListAdd(n: Node, head: Node, ghost r: seq<Node>)
    requires Ring(r) && r[0] == head && n !in r
    modifies n, head, head.prev
    ensures Ring(r + [n])
  {
    ghost var last := r[|r| - 1];
    assert r[0].prev == last;
    ghost var q := r + [n];
    assert forall k :: 0 <= k < |r| ==> q[k] == r[k];
    n.prev := head.prev;
    n.next := head;
    head.prev.next := n;
    head.prev := n;
  }

  /** list_del: the node is unlinked; its own pointers are left as they are. */
  method ListDel(entry: Node, ghost r: seq<Node>, ghost i: nat)
    requires Ring(r) && 0 < i < |r| && r[i] == entry
    modifies entry.next, entry.prev
    ensures Ring(r[..i] + r[i + 1..])
    ensures entry.next == old(entry.next) && entry.prev == old(entry.prev)
  {
    assert r[i].prev == r[i - 1] && r[i].next == r[Succ(i, |r|)];
    entry.next.prev := entry.prev;
    entry.prev.next := entry.next;
    ghost var q := r[..i] + r[i + 1..];
    DropNoDup(r, i);
    forall k | 0 <= k < |q| ensures q[k].next == q[Succ(k, |q|)] {
      DropNeighbours(r, i, k);
      ghost var j := if k < i then k else k + 1;
      assert old(r[j].next) == r[Succ(j, |r|)] && (r[j] == r[i - 1] <==> j == i - 1);
    }
    forall k | 0 <= k < |q| ensures q[k].prev == q[Pred(k, |q|)] {
      DropNeighbours(r, i, k);
      ghost var j := if k < i then k else k + 1;
      assert old(r[j].prev) == r[Pred(j, |r|)] && (r[j] == r[Succ(i, |r|)] <==> j == Succ(i, |r|));
    }
  }

  /** The neighbours in a ring from which node i has been taken. */
  lemma DropNeighbours(r: seq<Node>, i: nat, k: nat)
    requires 0 < i < |r| && k < |r| - 1
    ensures var q, j := r[..i] + r[i + 1..], if k < i then k else k + 1;
            && q[k] == r[j]
            && q[Succ(k, |q|)] == (if j == i - 1 then r[Succ(i, |r|)] else r[Succ(j, |r|)])
            && q[Pred(k, |q|)] == (if j == Succ(i, |r|) then r[i - 1] else r[Pred(j, |r|)])
  {}

  lemma DropNoDup(r: seq<Node>, i: nat)
    requires NoDup(r) && i < |r|
    ensures NoDup(r[..i] + r[i + 1..])
  {}

  // ------------------------------------------------------ several lists

  ghost function NodesOf(rings: seq<seq<Node>>): set<Node> {
    set k, i | 0 <= k < |rings| && 0 <= i < |rings[k]| :: rings[k][i]
  }

  ghost predicate AllApart(rings: seq<seq<Node>>) {
    forall j, k :: 0 <= j < k < |rings| ==> Apart(rings[j], rings[k])
  }

  /** Lists without common nodes. */
  ghost predicate System(rings: seq<seq<Node>>)
    reads NodesOf(rings)
  {
    AllApart(rings) && forall k :: 0 <= k < |rings| ==> Ring(rings[k])
  }

  /** The lists without node i of list a. */
  ghost function Less(rings: seq<seq<Node>>, a: nat, i: nat): seq<seq<Node>>
    requires a < |rings| && i < |rings[a]|
  {
    rings[a := rings[a][..i] + rings[a][i + 1..]]
  }

  /** Node i of list a at the tail of list b. */
  ghost function Moved(rings: seq<seq<Node>>, a: nat, i: nat, b: nat): seq<seq<Node>>
    requires a < |rings| && b < |rings| && i < |rings[a]|
  {
    var less := Less(rings, a, i);
    less[b := less[b] + [rings[a][i]]]
  }

  lemma MovedApart(rings: seq<seq<Node>>, a: nat, i: nat, b: nat)
    requires AllApart(rings) && a < |rings| && b < |rings| && i < |rings[a]| && NoDup(rings[a])
    ensures AllApart(Moved(rings, a, i, b))
    ensures forall k :: 0 <= k < |rings| ==> rings[a][i] !in Less(rings, a, i)[k]
  {}

  /** list_move: the entry goes from its list to the tail of another (or of the
      same) list, and all other lists are as before. */
  method ListMove(entry: Node, newHead: Node, ghost rings: seq<seq<Node>>, ghost a: nat, ghost i: nat, ghost b: nat)
    requires System(rings) && a < |rings| && b < |rings| && 0 < i < |rings[a]|
    requires rings[a][i] == entry && rings[b][0] == newHead
    modifies NodesOf(rings)
    ensures System(Moved(rings, a, i, b))
    ensures NodesOf(Moved(rings, a, i, b)) <= NodesOf(rings)
  {
    MovedApart(rings, a, i, b);
    DelFrom(entry, rings, a, i);
    AddTo(entry, newHead, Less(rings, a, i), b);
  }

  ghost predicate Rings(rings: seq<seq<Node>>)
    reads NodesOf(rings)
  {
    forall k :: 0 <= k < |rings| ==> Ring(rings[k])
  }

  /** list_del, as seen by all lists. */
  method DelFrom(entry: Node, ghost rings: seq<seq<Node>>, ghost a: nat, ghost i: nat)
    requires System(rings) && a < |rings| && 0 < i < |rings[a]| && rings[a][i] == entry
    modifies NodesOf(rings)
    ensures Rings(Less(rings, a, i)) && NodesOf(Less(rings, a, i)) <= NodesOf(rings)
  {
    assert rings[a][i].next == rings[a][Succ(i, |rings[a]|)] && rings[a][i].prev == rings[a][Pred(i, |rings[a]|)];
    assert forall k :: 0 <= k < |rings| && k != a ==> Ring(rings[k]);
    ListDel(entry, rings[a], i);
    ghost var less := Less(rings, a, i);
    assert forall k :: 0 <= k < |rings| ==> Ring(less[k]);
  }

  /** list_add, as seen by all lists. */
  method AddTo(n: Node, head: Node, ghost rings: seq<seq<Node>>, ghost b: nat)
    requires Rings(rings) && b < |rings| && rings[b][0] == head && AllApart(rings[b := rings[b] + [n]])
    requires forall k :: 0 <= k < |rings| ==> n !in rings[k]
    modifies NodesOf(rings), n
    ensures System(rings[b := rings[b] + [n]]) && NodesOf(rings[b := rings[b] + [n]]) <= NodesOf(rings) + {n}
  {
    assert Ring(rings[b]);
    assert rings[b][0].prev == rings[b][Pred(0, |rings[b]|)];
    ghost var more := rings[b := rings[b] + [n]];
    ghost var last := rings[b][|rings[b]| - 1];
    forall k | 0 <= k < |rings| && k != b ensures head !in rings[k] && last !in rings[k] {
      assert Apart(more[if k < b then k else b], more[if k < b then b else k]);
      assert more[b][0] == head && more[b][|rings[b]| - 1] == last && more[k] == rings[k];
    }
    assert forall k :: 0 <= k < |rings| && k != b ==> Ring(rings[k]);
    ListAdd(n, head, rings[b]);
    assert forall k :: 0 <= k < |rings| ==> Ring(more[k]);
  }

  // ------------------------------------------------------------- sweeps

  /** The nodes that f sends to k, in order; every negative value means stay. */
  ghost function Select(q: seq<Node>, f: Node -> int, k: int): seq<Node> {
    if q == [] then []
    else
      var n := |q| - 1;
      Select(q[..n], f, k) + if f(q[n]) == k || (f(q[n]) < 0 && k < 0) then [q[n]] else []
  }

  /** List k once the first n nodes of list 0 have been visited: nodes that stay
      keep their order, and list k > 0 has got the nodes sent to k - 1. */
  ghost function SweptList(rings: seq<seq<Node>>, f: Node -> int, n: nat, k: nat): seq<Node>
    requires k < |rings| && n < |rings[0]|
  {
    var s := rings[0][1..];
    if k == 0 then [rings[0][0]] + Select(s[..n], f, -1) + s[n..] else rings[k] + Select(s[..n], f, k - 1)
  }

  ghost function Swept(rings: seq<seq<Node>>, f: Node -> int, n: nat): seq<seq<Node>>
    requires rings != [] && n < |rings[0]|
  {
    seq(|rings|, k requires 0 <= k < |rings| => SweptList(rings, f, n, k))
  }

  /** The index in list 0 of the node visited next. */
  ghost function Cursor(rings: seq<seq<Node>>, f: Node -> int, n: nat): nat
    requires rings != [] && n < |rings[0]|
  {
    1 + |Select(rings[0][1..][..n], f, -1)|
  }

  lemma SweptSource(rings: seq<seq<Node>>, f: Node -> int, n: nat)
    requires rings != [] && n + 1 < |rings[0]|
    ensures var x, q, c := rings[0][n + 1], SweptList(rings, f, n, 0), Cursor(rings, f, n);
            && c < |q| && q[c] == x
            && (c + 1 < |q| ==> n + 2 < |rings[0]| && q[c + 1] == rings[0][n + 2])
            && (c + 1 == |q| ==> n + 2 == |rings[0]|)
            && SweptList(rings, f, n + 1, 0) == if f(x) < 0 then q else q[..c] + q[c + 1..]
  {
    var s := rings[0][1..];
    var x, q, c, h := s[n], SweptList(rings, f, n, 0), Cursor(rings, f, n), [rings[0][0]];
    var kept, rest := Select(s[..n], f, -1), s[n + 1..];
    assert s[..n + 1] == s[..n] + [x];
    assert q == h + kept + [x] + rest;
    assert q[..c] == h + kept && q[c + 1..] == rest;
  }

  lemma SweptDest(rings: seq<seq<Node>>, f: Node -> int, n: nat, k: nat)
    requires 0 < k < |rings| && n + 1 < |rings[0]|
    ensures var x, q := rings[0][n + 1], SweptList(rings, f, n, k);
            SweptList(rings, f, n + 1, k) == if f(x) == k - 1 then q + [x] else q
  {
    var s := rings[0][1..];
    assert s[..n + 1] == s[..n] + [s[n]];
  }

  lemma SweptStep(rings: seq<seq<Node>>, f: Node -> int, n: nat)
    requires rings != [] && n + 1 < |rings[0]| && f(rings[0][n + 1]) < |rings| - 1
    ensures Cursor(rings, f, n) < |SweptList(rings, f, n, 0)|
    ensures var x, cur, c := rings[0][n + 1], Swept(rings, f, n), Cursor(rings, f, n);
            Swept(rings, f, n + 1) == if f(x) < 0 then cur else Moved(cur, 0, c, f(x) + 1)
  {
    var x, cur, c := rings[0][n + 1], Swept(rings, f, n), Cursor(rings, f, n);
    SweptSource(rings, f, n);
    if f(x) < 0 {
      forall k: nat | k < |rings| ensures SweptList(rings, f, n + 1, k) == SweptList(rings, f, n, k) {
        if k > 0 {
          SweptDest(rings, f, n, k);
        }
      }
    } else {
      var goal := Moved(cur, 0, c, f(x) + 1);
      forall k: nat | k < |rings| ensures SweptList(rings, f, n + 1, k) == goal[k] {
        MovedAt(cur, 0, c, f(x) + 1, k);
        if k > 0 {
          SweptDest(rings, f, n, k);
        }
      }
    }
  }

  lemma MovedAt(rings: seq<seq<Node>>, a: nat, i: nat, b: nat, k: nat)
    requires a < |rings| && b < |rings| && i < |rings[a]| && a != b && k < |rings|
    ensures |Moved(rings, a, i, b)| == |rings|
    ensures Moved(rings, a, i, b)[k] == if k == a then rings[a][..i] + rings[a][i + 1..]
                                        else if k == b then rings[b] + [rings[a][i]] else rings[k]
  {}

  lemma SweptStart(rings: seq<seq<Node>>, f: Node -> int)
    requires rings != [] && rings[0] != []
    ensures Swept(rings, f, 0) == rings
  {
    forall k: nat | k < |rings| ensures SweptList(rings, f, 0, k) == rings[k] {
      assert rings[0] == [rings[0][0]] + rings[0][1..];
      assert rings[0][1..][..0] == [];
    }
  }

  /** list_for_each_safe with a body that moves the current node away: every
      node that was on the list is visited exactly once, in order, those left
      behind keep their order, and each destination receives its nodes in order. */
  method SweepSafe(head: Node, heads: seq<Node>, f: Node -> int, ghost rings: seq<seq<Node>>)
    returns (ghost visited: seq<Node>)
    requires System(rings) && |rings| == |heads| + 1 && rings[0][0] == head
    requires forall k :: 0 <= k < |heads| ==> rings[k + 1][0] == heads[k]
    requires forall x :: f(x) < |heads|
    modifies NodesOf(rings)
    ensures visited == rings[0][1..]
    ensures System(Swept(rings, f, |rings[0]| - 1))
  {
    ghost var n := 0;
    SweptStart(rings, f);
    visited := [];
    var pos := head.next;
    assert rings[0][0].next == rings[0][Succ(0, |rings[0]|)];
    while pos != head
      invariant n < |rings[0]| && System(Swept(rings, f, n)) && NodesOf(Swept(rings, f, n)) <= NodesOf(rings)
      invariant pos == rings[0][Succ(n, |rings[0]|)] && visited == rings[0][1..n + 1]
      decreases |rings[0]| - n
    {
      VisitedStep(rings[0], n);
      visited := visited + [pos];
      pos := SweepOne(pos, heads, f, rings, n);
      n := n + 1;
    }
  }

  lemma VisitedStep(r: seq<Node>, n: nat)
    requires n + 1 < |r|
    ensures r[1..n + 1] + [r[n + 1]] == r[1..n + 2]
  {}

  /** One pass of the sweep: the next node is read before the current one moves. */
  method SweepOne(pos: Node, heads: seq<Node>, f: Node -> int, ghost rings: seq<seq<Node>>, ghost n: nat)
    returns (nxt: Node)
    requires |rings| == |heads| + 1 && (forall k :: 0 <= k < |rings| ==> rings[k] != [])
    requires forall k :: 0 <= k < |heads| ==> rings[k + 1][0] == heads[k]
    requires f(pos) < |heads| && n + 1 < |rings[0]| && pos == rings[0][n + 1]
    requires System(Swept(rings, f, n))
    modifies NodesOf(Swept(rings, f, n))
    ensures System(Swept(rings, f, n + 1)) && NodesOf(Swept(rings, f, n + 1)) <= NodesOf(Swept(rings, f, n))
    ensures nxt == rings[0][Succ(n + 1, |rings[0]|)]
  {
    ghost var cur, c := Swept(rings, f, n), Cursor(rings, f, n);
    SweptSource(rings, f, n);
    SweptStep(rings, f, n);
    assert cur[0] == SweptList(rings, f, n, 0);
    assert cur[0][c].next == cur[0][Succ(c, |cur[0]|)];
    nxt := pos.next;
    if f(pos) >= 0 {
      ListMove(pos, heads[f(pos)], cur, 0, c, f(pos) + 1);
    }
  }
}
