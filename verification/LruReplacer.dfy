/** The replacer as the source builds it: a doubly linked list with three sentinels and a node map. */
module LruReplacers {
  import opened Wrappers
  import opened LruLists

  class Node {
    const frameId: nat
    var prev: Node?
    var next: Node?
    var inOld: bool

    constructor (id: nat)
      ensures frameId == id && prev == null && next == null
    {
      frameId := id;
      prev, next, inOld := null, null, false;
    }
  }

  function Ids(c: seq<Node>): (r: seq<nat>)
    ensures |r| == |c|
  {
    seq(|c|, i requires 0 <= i < |c| => c[i].frameId)
  }

  // ----- the two sublists and the node map, apart from the links

  predicate NoDup(c: seq<Node>) {
    forall i, j :: 0 <= i < j < |c| ==> c[i] != c[j]
  }

  /** Listed nodes are mapped under their frame; a mapped node that is not listed is in limbo. */
  predicate Mapped(young: seq<Node>, elder: seq<Node>, nodes: map<nat, Node>) {
    && (forall n :: n in young + elder ==> n.frameId in nodes && nodes[n.frameId] == n)
    && (forall f :: f in nodes ==> nodes[f].frameId == f)
  }

  function Limbo(young: seq<Node>, elder: seq<Node>, nodes: map<nat, Node>): set<nat> {
    set f | f in nodes && nodes[f] !in young + elder
  }

  function ListOf(young: seq<Node>, elder: seq<Node>, nodes: map<nat, Node>, target: nat): Lru {
    Lru(Ids(young), Ids(elder), Limbo(young, elder, nodes), target)
  }

  lemma ListIsWf(young: seq<Node>, elder: seq<Node>, nodes: map<nat, Node>, target: nat)
    requires NoDup(young + elder) && Mapped(young, elder, nodes)
    ensures Wf(ListOf(young, elder, nodes, target))
  {
    var o := ListOf(young, elder, nodes, target).Order();
    forall i | 0 <= i < |o|
      ensures nodes[o[i]] == (young + elder)[i]
    {
      assert (young + elder)[i] in young + elder;
    }
  }

  function Cut<T>(s: seq<T>, k: nat): seq<T>
    requires k < |s|
  {
    s[..k] + s[k + 1..]
  }

  lemma CutMembers(s: seq<Node>, k: nat)
    requires NoDup(s) && k < |s|
    ensures NoDup(Cut(s, k)) && forall x :: x in Cut(s, k) <==> x in s && x != s[k]
  {
    forall x | x in s && x != s[k]
      ensures x in Cut(s, k)
    {
      var i :| 0 <= i < |s| && s[i] == x;
      assert x == Cut(s, k)[if i < k then i else i - 1];
    }
  }

  /** Unlinking a listed node is Pin: the frame leaves its sublist but stays in the map. */
  lemma CutYoungIsPin(young: seq<Node>, elder: seq<Node>, nodes: map<nat, Node>, target: nat, k: nat)
    requires NoDup(young + elder) && Mapped(young, elder, nodes) && k < |young|
    ensures Mapped(Cut(young, k), elder, nodes)
    ensures ListOf(Cut(young, k), elder, nodes, target) == Pin(ListOf(young, elder, nodes, target), young[k].frameId)
  {
    ListIsWf(young, elder, nodes, target);
    PinAt(ListOf(young, elder, nodes, target), k);
    CutMembers(young + elder, k);
    assert Cut(young + elder, k) == Cut(young, k) + elder;
    assert Ids(Cut(young, k)) == Cut(Ids(young), k);
  }

  lemma CutElderIsPin(young: seq<Node>, elder: seq<Node>, nodes: map<nat, Node>, target: nat, k: nat)
    requires NoDup(young + elder) && Mapped(young, elder, nodes) && k < |elder|
    ensures Mapped(young, Cut(elder, k), nodes)
    ensures ListOf(young, Cut(elder, k), nodes, target) == Pin(ListOf(young, elder, nodes, target), elder[k].frameId)
  {
    ListIsWf(young, elder, nodes, target);
    PinAt(ListOf(young, elder, nodes, target), k);
    CutMembers(young + elder, |young| + k);
    assert Cut(young + elder, |young| + k) == young + Cut(elder, k);
    assert Ids(Cut(elder, k)) == Cut(Ids(elder), k);
  }

  /** Linking a mapped node at the head of a sublist takes its frame out of limbo. */
  lemma PutLists(young: seq<Node>, elder: seq<Node>, nodes: map<nat, Node>, target: nat, x: Node)
    requires Mapped(young, elder, nodes)
    requires x.frameId in nodes && nodes[x.frameId] == x && x !in young + elder
    ensures var l, f := ListOf(young, elder, nodes, target), x.frameId;
            && Mapped([x] + young, elder, nodes) && Mapped(young, [x] + elder, nodes)
            && ListOf([x] + young, elder, nodes, target) == l.(young := [f] + l.young, limbo := l.limbo - {f})
            && ListOf(young, [x] + elder, nodes, target) == l.(elder := [f] + l.elder, limbo := l.limbo - {f})
  {
    assert forall n :: n in [x] + young + elder <==> n in young + elder || n == x;
    assert forall n :: n in young + ([x] + elder) <==> n in young + elder || n == x;
    assert Ids([x] + young) == [x.frameId] + Ids(young) && Ids([x] + elder) == [x.frameId] + Ids(elder);
  }

  function ChainOf(head: Node, young: seq<Node>, mid: Node, elder: seq<Node>, tail: Node): seq<Node> {
    [head] + young + [mid] + elder + [tail]
  }

  lemma CutYoungChain(h: Node, y: seq<Node>, m: Node, e: seq<Node>, t: Node, k: nat)
    requires k < |y| && NoDup(ChainOf(h, y, m, e, t))
    ensures ChainOf(h, y, m, e, t)[k + 1] == y[k] && y[k] !in ChainOf(h, Cut(y, k), m, e, t)
    ensures Cut(ChainOf(h, y, m, e, t), k + 1) == ChainOf(h, Cut(y, k), m, e, t)
    ensures forall n :: n in Cut(y, k) ==> n in y
  {
    CutMembers(ChainOf(h, y, m, e, t), k + 1);
    assert Cut(ChainOf(h, y, m, e, t), k + 1) == ChainOf(h, Cut(y, k), m, e, t);
  }

  lemma CutElderChain(h: Node, y: seq<Node>, m: Node, e: seq<Node>, t: Node, k: nat, j: nat)
    requires k < |e| && j == |y| + 2 + k && NoDup(ChainOf(h, y, m, e, t))
    ensures ChainOf(h, y, m, e, t)[j] == e[k] && e[k] !in ChainOf(h, y, m, Cut(e, k), t)
    ensures Cut(ChainOf(h, y, m, e, t), j) == ChainOf(h, y, m, Cut(e, k), t)
    ensures forall n :: n in Cut(e, k) ==> n in e
  {
    CutMembers(ChainOf(h, y, m, e, t), j);
    assert Cut(ChainOf(h, y, m, e, t), j) == ChainOf(h, y, m, Cut(e, k), t);
  }

  lemma PutChain(h: Node, y: seq<Node>, m: Node, e: seq<Node>, t: Node, x: Node, j: nat, d: seq<Node>)
    requires j == 0 || j == |y| + 1
    requires d == if j == 0 then ChainOf(h, [x] + y, m, e, t) else ChainOf(h, y, m, [x] + e, t)
    ensures var c := ChainOf(h, y, m, e, t);
            && j + 1 < |c| && c[j] == (if j == 0 then h else m)
            && c[..j + 1] + [x] + c[j + 1..] == d
            && (forall n :: n in d ==> n in c || n == x)
            && (forall n :: n in y + e ==> n in c)
  {
    var c := ChainOf(h, y, m, e, t);
    assert c[..j + 1] + [x] + c[j + 1..] == d;
    forall n | n in d
      ensures n in c || n == x
    {
      var i :| 0 <= i < |d| && d[i] == n;
      assert i != j + 1 ==> n == c[if i <= j then i else i - 1];
    }
  }

  class LruReplacer {
    const sentinelHead: Node
    const sentinelTail: Node
    const midpoint: Node
    const targetOldSize: nat
    var nodes: map<nat, Node>
    var youngSize: nat
    var oldSize: nat
    /** The linked nodes of each sublist, head first. */
    ghost var young: seq<Node>
    ghost var elder: seq<Node>
    ghost var Repr: set<object>

    /** All linked nodes, sentinels included. */
    ghost function Chain(): seq<Node>
      reads this
    {
      ChainOf(sentinelHead, young, midpoint, elder, sentinelTail)
    }

    static ghost predicate Linked(c: seq<Node>)
      reads c
    {
      && |c| >= 2 && NoDup(c)
      && (forall i {:trigger c[i].next} :: 0 <= i < |c| - 1 ==> c[i].next == c[i + 1])
      && (forall i {:trigger c[i].prev} :: 0 < i < |c| ==> c[i].prev == c[i - 1])
      && c[0].prev == null && c[|c| - 1].next == null
    }

    ghost predicate Owned()
      reads this
    {
      && this in Repr
      && (forall n :: n in Chain() ==> n in Repr)
      && (forall f :: f in nodes ==>
            nodes[f] in Repr && nodes[f] != sentinelHead && nodes[f] != midpoint && nodes[f] != sentinelTail)
    }

    ghost predicate Valid()
      reads this, Repr
      ensures Valid() ==> this in Repr
    {
      && Owned() && Linked(Chain()) && Mapped(young, elder, nodes)
      && (forall n :: n in young ==> !n.inOld) && (forall n :: n in elder ==> n.inOld)
      && youngSize == |young| && oldSize == |elder|
    }

    ghost function Abs(): Lru
      reads this
    {
      ListOf(young, elder, nodes, targetOldSize)
    }

    constructor (poolSize: nat, oldPct: int)
      ensures Valid() && fresh(Repr)
      ensures Abs() == Lru([], [], {}, targetOldSize) && targetOldSize == TargetOldSize(poolSize, oldPct)
    {
      var head := new Node(0xFFFF_FFFF);
      var tail := new Node(0xFFFF_FFFF);
      var m := new Node(0xFFFF_FFFF);
      head.next, m.prev, m.next, tail.prev := m, head, tail, m;
      sentinelHead, sentinelTail, midpoint := head, tail, m;
      targetOldSize := TargetOldSize(poolSize, oldPct);
      nodes, youngSize, oldSize := map[], 0, 0;
      young, elder := [], [];
      Repr := {this, head, tail, m};
    }

    // ----- pointer surgery

    /** Takes the k-th node out of a chain. */
    static method Unlink(node: Node, ghost c: seq<Node>, ghost k: nat, ghost p: Node, ghost q: Node)
      requires Linked(c) && 0 < k < |c| - 1 && c[k] == node && p == c[k - 1] && q == c[k + 1]
      modifies node`prev, node`next, p`next, q`prev
      ensures Linked(Cut(c, k)) && node.prev == null && node.next == null
    {
      node.prev.next := node.next;
      node.next.prev := node.prev;
      node.prev := null;
      node.next := null;
    }

    /** Puts a node behind the k-th one of a chain. */
    static method InsertAfter(pos: Node, node: Node, markOld: bool, ghost c: seq<Node>, ghost k: nat, ghost q: Node)
      requires Linked(c) && k < |c| - 1 && c[k] == pos && q == c[k + 1] && node !in c
      modifies node, pos`next, q`prev
      ensures Linked(c[..k + 1] + [node] + c[k + 1..]) && node.inOld == markOld
    {
      node.next := pos.next;
      node.prev := pos;
      pos.next.prev := node;
      pos.next := node;
      node.inOld := markOld;
    }

    lemma SublistsDistinct()
      requires Linked(Chain())
      ensures NoDup(young + elder)
    {
      forall i | 0 <= i < |young + elder|
        ensures (young + elder)[i] == Chain()[if i < |young| then i + 1 else i + 2]
      {
      }
    }

    // ----- unlink and insertAfter with their size counters

    method DetachYoung(node: Node, ghost k: nat)
      requires Valid() && k < |young| && young[k] == node
      modifies Repr
      ensures Valid() && Repr == old(Repr) && nodes == old(nodes) && node !in Chain()
      ensures Abs() == LruLists.Pin(old(Abs()), node.frameId)
    {
      SublistsDistinct();
      CutYoungIsPin(young, elder, nodes, targetOldSize, k);
      ghost var c := Chain();
      CutYoungChain(sentinelHead, young, midpoint, elder, sentinelTail, k);
      Unlink(node, c, k + 1, c[k], c[k + 2]);
      youngSize := youngSize - 1;
      young := Cut(young, k);
    }

    method DetachOld(node: Node, ghost k: nat)
      requires Valid() && k < |elder| && elder[k] == node
      modifies Repr
      ensures Valid() && Repr == old(Repr) && nodes == old(nodes) && node !in Chain()
      ensures Abs() == LruLists.Pin(old(Abs()), node.frameId)
    {
      SublistsDistinct();
      CutElderIsPin(young, elder, nodes, targetOldSize, k);
      ghost var c, j := Chain(), |young| + 2 + k;
      CutElderChain(sentinelHead, young, midpoint, elder, sentinelTail, k, j);
      Unlink(node, c, j, c[j - 1], c[j + 1]);
      oldSize := oldSize - 1;
      elder := Cut(elder, k);
    }

    /** Links a mapped node at the young head. */
    method AttachYoung(node: Node)
      requires Valid() && node.frameId in nodes && nodes[node.frameId] == node && node !in Chain()
      modifies Repr
      ensures Valid() && Repr == old(Repr) && nodes == old(nodes)
      ensures var l, f := old(Abs()), node.frameId; Abs() == l.(young := [f] + l.young, limbo := l.limbo - {f})
    {
      PutLists(young, elder, nodes, targetOldSize, node);
      ghost var c, j := Chain(), 0;
      ghost var d := ChainOf(sentinelHead, [node] + young, midpoint, elder, sentinelTail);
      PutChain(sentinelHead, young, midpoint, elder, sentinelTail, node, j, d);
      assert forall n :: n in young || n in elder ==> n in young + elder;
      InsertAfter(sentinelHead, node, false, c, j, c[j + 1]);
      youngSize := youngSize + 1;
      young := [node] + young;
      assert Chain() == d;
    }

    /** Links a mapped node at the midpoint, the head of the old sublist. */
    method AttachOld(node: Node)
      requires Valid() && node.frameId in nodes && nodes[node.frameId] == node && node !in Chain()
      modifies Repr
      ensures Valid() && Repr == old(Repr) && nodes == old(nodes)
      ensures var l, f := old(Abs()), node.frameId; Abs() == l.(elder := [f] + l.elder, limbo := l.limbo - {f})
    {
      PutLists(young, elder, nodes, targetOldSize, node);
      ghost var c, j := Chain(), |young| + 1;
      ghost var d := ChainOf(sentinelHead, young, midpoint, [node] + elder, sentinelTail);
      PutChain(sentinelHead, young, midpoint, elder, sentinelTail, node, j, d);
      assert forall n :: n in young || n in elder ==> n in young + elder;
      InsertAfter(midpoint, node, true, c, j, c[j + 1]);
      oldSize := oldSize + 1;
      elder := [node] + elder;
      assert Chain() == d;
    }

    /** Takes a listed node out of whichever sublist its flag names. */
    method Detach(node: Node)
      requires Valid() && node.frameId in nodes && nodes[node.frameId] == node && node in young + elder
      modifies Repr
      ensures Valid() && Repr == old(Repr) && nodes == old(nodes) && node !in Chain()
      ensures Abs() == LruLists.Pin(old(Abs()), node.frameId)
    {
      if node.inOld {
        ghost var k :| 0 <= k < |elder| && elder[k] == node;
        DetachOld(node, k);
      } else {
        ghost var k :| 0 <= k < |young| && young[k] == node;
        DetachYoung(node, k);
      }
    }

    /** Drops an unlinked node from the map. */
    method Erase(node: Node)
      requires Valid() && node.frameId in nodes && nodes[node.frameId] == node && node !in Chain()
      modifies Repr
      ensures Valid() && Repr == old(Repr)
      ensures Abs() == old(Abs()).(limbo := old(Abs()).limbo - {node.frameId})
    {
      nodes := nodes - {node.frameId};
    }

    // ----- operations

    /** Demotes young frames while the old sublist is over its target. */
    method Rebalance()
      requires Valid()
      modifies Repr
      ensures Valid() && Repr == old(Repr) && nodes.Keys == old(nodes.Keys)
      ensures Abs() == LruLists.Rebalance(old(Abs()))
    {
      while oldSize > targetOldSize && youngSize > 0
        invariant Valid() && Repr == old(Repr) && nodes.Keys == old(nodes.Keys)
        invariant LruLists.Rebalance(Abs()) == LruLists.Rebalance(old(Abs()))
        decreases youngSize
      {
        var oldestYoung := midpoint.prev;
        ghost var k := |young| - 1;
        LastYoung();
        if oldestYoung == sentinelHead { break; }
        Demote(oldestYoung, k);
      }
    }

    lemma LastYoung()
      requires Valid()
      ensures midpoint.prev == if young == [] then sentinelHead else young[|young| - 1]
      ensures sentinelTail.prev == if elder == [] then midpoint else elder[|elder| - 1]
      ensures young != [] ==> young[|young| - 1] != sentinelHead
      ensures elder != [] ==> elder[|elder| - 1] != sentinelHead && elder[|elder| - 1] != midpoint
      ensures midpoint != sentinelHead
    {
      var c, j, n := Chain(), |young| + 1, |young| + |elder| + 2;
      assert c[j] == midpoint && c[n] == sentinelTail && c[0] == sentinelHead;
      assert c[j].prev == c[j - 1] && c[n].prev == c[n - 1];
    }

    /** One round of rebalance(): the oldest young frame becomes the old head. */
    method Demote(node: Node, ghost k: nat)
      requires Valid() && k == |young| - 1 && young[k] == node
      modifies Repr
      ensures Valid() && Repr == old(Repr) && nodes.Keys == old(nodes.Keys) && youngSize == old(youngSize) - 1
      ensures var l := old(Abs()); Abs() == l.(young := l.young[..k], elder := [l.young[k]] + l.elder)
    {
      SublistsDistinct();
      ListIsWf(young, elder, nodes, targetOldSize);
      PinAt(Abs(), k);
      assert node in young + elder;
      DetachYoung(node, k);
      AttachOld(node);
    }

    method Pin(f: nat)
      requires Valid() && f !in Abs().limbo
      modifies Repr
      ensures Valid() && Repr == old(Repr) && Abs() == LruLists.Pin(old(Abs()), f)
    {
      Listed(f);
      if f !in nodes { return; }
      Detach(nodes[f]);
    }

    method Unpin(f: nat)
      requires Valid()
      modifies Repr
      ensures Valid() && fresh(Repr - old(Repr)) && Abs() == LruLists.Unpin(old(Abs()), f)
    {
      Listed(f);
      if f in nodes { return; }
      var node := new Node(f);
      assert node !in Chain();
      ghost var l := Abs();
      nodes := nodes[f := node];
      Repr := Repr + {node};
      assert Limbo(young, elder, nodes) == l.limbo + {f};
      AttachOld(node);
      assert Abs() == l.(elder := [f] + l.elder);
      Rebalance();
    }

    method Access(f: nat)
      requires Valid() && f !in Abs().limbo
      modifies Repr
      ensures Valid() && Repr == old(Repr) && Abs() == LruLists.Access(old(Abs()), f)
    {
      Listed(f);
      if f !in nodes { return; }
      var node := nodes[f];
      SublistsDistinct();
      ListIsWf(young, elder, nodes, targetOldSize);
      AccessByPin(Abs(), f);
      var wasOld := node.inOld;
      Detach(node);
      AttachYoung(node);
      if wasOld { Rebalance(); }
    }

    method Evict() returns (victim: Option<nat>)
      requires Valid()
      modifies Repr
      ensures Valid() && Repr == old(Repr)
      ensures (Abs(), victim) == LruLists.Evict(old(Abs()))
    {
      SublistsDistinct();
      ListIsWf(young, elder, nodes, targetOldSize);
      EvictByPin(Abs());
      LastYoung();
      var last := sentinelTail.prev;
      if last != midpoint && last != sentinelHead {
        assert last in young + elder;
        DetachOld(last, |elder| - 1);
        Erase(last);
        return Some(last.frameId);
      }
      var youngTail := midpoint.prev;
      if youngTail != sentinelHead {
        assert youngTail in young + elder;
        DetachYoung(youngTail, |young| - 1);
        Erase(youngTail);
        return Some(youngTail.frameId);
      }
      return None;
    }

    method Size() returns (n: nat)
      requires Valid()
      ensures n == |Abs().Order()|
    {
      n := youngSize + oldSize;
    }

    /** A frame is in the map exactly if it is listed or in limbo; its flag names its sublist. */
    lemma Listed(f: nat)
      requires Valid()
      ensures f in nodes <==> f in Abs().Order() || f in Abs().limbo
      ensures f in nodes && f !in Abs().limbo ==> nodes[f] in young + elder
      ensures f in nodes && f !in Abs().limbo ==> (nodes[f].inOld <==> f in Abs().elder)
    {
      var o, s := Abs().Order(), young + elder;
      forall i | 0 <= i < |s|
        ensures o[i] == s[i].frameId && o[i] in nodes && nodes[o[i]] == s[i]
      {
        assert s[i] in s;
      }
      if f in nodes && nodes[f] in s {
        var i :| 0 <= i < |s| && s[i] == nodes[f];
        assert o[i] == f;
      }
      if f in Abs().elder {
        var i :| 0 <= i < |elder| && Abs().elder[i] == f;
        assert s[|young| + i] == elder[i];
      }
      if f in nodes && nodes[f] in elder {
        var i :| 0 <= i < |elder| && elder[i] == nodes[f];
        assert Abs().elder[i] == f;
      }
    }
  }
}
