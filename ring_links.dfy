/**
 * The node arena behind a double linked ring, as values.
 *
 * `nodes` maps a node id to the node's key, info and its `next` and
 * `previous` links (an id stands for the source's `Node*`). `order` lists the
 * ids met when walking `next` from the anchor once round, and `index` gives
 * each node its place in that walk. RingInv ties every link to them; the
 * lemmas here show that the rewirings done by the ring's insertions and
 * removals keep it.
 */
module RingLinks {

  import opened Wrappers
  import opened RingSeq

  type NodeId = nat

  /** A node: key, info and the links to its neighbours. */
  datatype Node<K, V> = Node(key: K, info: V, next: NodeId, previous: NodeId)

  /** The entries of the nodes `ids`, in that order. */
  ghost function EntriesOf<K, V>(nodes: map<NodeId, Node<K, V>>, ids: seq<NodeId>): (s: seq<Entry<K, V>>)
    requires forall i :: 0 <= i < |ids| ==> ids[i] in nodes
    ensures |s| == |ids|
    ensures forall i {:trigger s[i]} :: 0 <= i < |ids| ==> s[i] == Entry(nodes[ids[i]].key, nodes[ids[i]].info)
  {
    seq(|ids|, i requires 0 <= i < |ids| => Entry(nodes[ids[i]].key, nodes[ids[i]].info))
  }

  /**
   * The links of `nodes` follow `order` round a cycle: each listed node's
   * `next` is its successor in `order` and its `previous` its predecessor,
   * the last node wrapping round to the first.
   */
  ghost predicate Linked<K, V>(nodes: map<NodeId, Node<K, V>>, order: seq<NodeId>)
  {
    && (forall i {:trigger order[i] in nodes} :: 0 <= i < |order| ==> order[i] in nodes)
    && (forall i {:trigger order[Succ(i, |order|)]} :: 0 <= i < |order| ==> nodes[order[i]].next == order[Succ(i, |order|)])
    && (forall i {:trigger order[Pred(i, |order|)]} :: 0 <= i < |order| ==> nodes[order[i]].previous == order[Pred(i, |order|)])
  }

  /**
   * `index` is the inverse of `order`: it gives every listed node its
   * position and holds nothing else, so no node is listed twice.
   */
  ghost predicate Indexed(order: seq<NodeId>, index: map<NodeId, nat>)
  {
    && (forall i {:trigger order[i] in index} :: 0 <= i < |order| ==> order[i] in index)
    && (forall i {:trigger index[order[i]]} :: 0 <= i < |order| ==> index[order[i]] == i)
    && (forall x {:trigger index[x]} :: x in index ==> index[x] < |order|)
    && (forall x {:trigger order[index[x]]} :: x in index ==> order[index[x]] == x)
  }

  /** The positions after `id` is listed at position `p`: the nodes from `p` on move one place up. */
  ghost function ShiftIn(index: map<NodeId, nat>, p: nat, id: NodeId): map<NodeId, nat>
  {
    map z | z in index.Keys + {id} :: if z == id then p else if index[z] >= p then index[z] + 1 else index[z]
  }

  /**
   * The positions after `x`, at position `i` of a ring of `n` nodes, is
   * unlinked and the walk starts from its successor.
   */
  ghost function ShiftOut(index: map<NodeId, nat>, n: nat, i: nat, x: NodeId): map<NodeId, nat>
    requires i < n
  {
    map z | z in index.Keys - {x} :: if index[z] > i then index[z] - i - 1 else index[z] + (n - 1 - i)
  }

  /**
   * The rewiring done by pushBack, insertAfter and insertBefore: a fresh node
   * `id` carrying `e` goes between `x` and its successor `y`, whose `next`
   * and `previous` now point at it.
   */
  function LinkIn<K, V>(nodes: map<NodeId, Node<K, V>>, x: NodeId, y: NodeId, id: NodeId, e: Entry<K, V>)
    : map<NodeId, Node<K, V>>
    requires x in nodes && y in nodes
  {
    var m := nodes[id := Node(e.key, e.info, y, x)];
    var m' := m[y := m[y].(previous := id)];
    m'[x := m'[x].(next := id)]
  }

  /**
   * The rewiring done by remove: the neighbours of `x` point at each other
   * and `x` is released.
   */
  function LinkOut<K, V>(nodes: map<NodeId, Node<K, V>>, x: NodeId): map<NodeId, Node<K, V>>
    requires x in nodes && nodes[x].next in nodes && nodes[x].previous in nodes
  {
    var nx, px := nodes[x].next, nodes[x].previous;
    var m := nodes[nx := nodes[nx].(previous := px)];
    var m' := m[px := m[px].(next := nx)];
    m' - {x}
  }

  /**
   * `m` is `nodes` with a fresh node `id` carrying `e` linked between the
   * node at `pos` and its successor.
   */
  ghost predicate SplicedIn<K, V>(nodes: map<NodeId, Node<K, V>>, order: seq<NodeId>, pos: nat, id: NodeId,
                                  e: Entry<K, V>, m: map<NodeId, Node<K, V>>)
    requires pos < |order|
  {
    var x, y := order[pos], order[Succ(pos, |order|)];
    && m.Keys == nodes.Keys + {id}
    && id in m && x in m && y in m
    && m[id] == Node(e.key, e.info, y, x)
    && m[x].next == id && m[y].previous == id
    && (forall z {:trigger m[z]} :: z in nodes ==> z in m && m[z].key == nodes[z].key && m[z].info == nodes[z].info)
    && (forall z {:trigger m[z]} :: z in nodes && z != x ==> z in m && m[z].next == nodes[z].next)
    && (forall z {:trigger m[z]} :: z in nodes && z != y ==> z in m && m[z].previous == nodes[z].previous)
  }

  /**
   * The ring invariant over the arena's values: `order` lists every node
   * exactly once and starts at the anchor, the links follow `order` round a
   * cycle, and every node's id is below `nextId`.
   */
  ghost predicate RingInv<K, V>(nodes: map<NodeId, Node<K, V>>, anchor: Option<NodeId>, nextId: NodeId,
                                order: seq<NodeId>, index: map<NodeId, nat>)
  {
    && Linked(nodes, order)
    && Indexed(order, index)
    && index.Keys == nodes.Keys
    && (forall x :: x in nodes ==> x < nextId)
    && (anchor.None? <==> order == [])
    && (anchor.Some? ==> anchor.value == order[0])
  }

  /** One step along `next` from position `j`: to `j + 1`, or back to the first node from the last. */
  lemma Step<K, V>(nodes: map<NodeId, Node<K, V>>, order: seq<NodeId>, index: map<NodeId, nat>, j: nat)
    requires Linked(nodes, order) && Indexed(order, index) && j < |order|
    ensures order[j] in nodes && nodes[order[j]].next == order[Succ(j, |order|)]
    ensures nodes[order[j]].next == order[0] <==> j + 1 == |order|
  {
    var s := Succ(j, |order|);
    assert index[order[s]] == s && index[order[0]] == 0;
  }

  /** A splice before the anchor appends the fresh node to the traversal: the shape of pushBack. */
  lemma SpliceInBack<K, V>(nodes: map<NodeId, Node<K, V>>, anchor: Option<NodeId>, nextId: NodeId, order: seq<NodeId>,
                           index: map<NodeId, nat>, x: NodeId, y: NodeId, e: Entry<K, V>)
    requires RingInv(nodes, anchor, nextId, order, index) && order != []
    requires x == order[|order| - 1] && y == order[0]
    ensures var m := LinkIn(nodes, x, y, nextId, e);
            && RingInv(m, anchor, nextId + 1, order + [nextId], ShiftIn(index, |order|, nextId))
            && EntriesOf(m, order + [nextId]) == EntriesOf(nodes, order) + [e]
  {
    var n := |order|;
    assert Succ(n - 1, n) == 0;
    SpliceIn(nodes, anchor, nextId, order, index, n - 1, x, y, e);
    assert InsertAt(order, n, nextId) == order + [nextId];
    assert InsertAt(EntriesOf(nodes, order), n, e) == EntriesOf(nodes, order) + [e];
  }

  /**
   * The first node pushed onto an empty ring is its own successor and
   * predecessor, and becomes the anchor.
   */
  lemma Singleton<K, V>(nodes: map<NodeId, Node<K, V>>, anchor: Option<NodeId>, nextId: NodeId, order: seq<NodeId>,
                        index: map<NodeId, nat>, e: Entry<K, V>)
    requires RingInv(nodes, anchor, nextId, order, index) && order == []
    ensures var m := map[nextId := Node(e.key, e.info, nextId, nextId)];
            && RingInv(m, Some(nextId), nextId + 1, [nextId], map[nextId := 0])
            && EntriesOf(m, [nextId]) == [e]
  {
  }

  /**
   * While clear walks the ring, `nodes` holds the nodes of `n0` not yet
   * released: the anchor and every node from position `k` on, unchanged.
   */
  ghost predicate Kept<K, V>(nodes: map<NodeId, Node<K, V>>, n0: map<NodeId, Node<K, V>>, index: map<NodeId, nat>, k: nat)
  {
    && (forall x :: x in nodes <==> x in n0 && x in index && (index[x] == 0 || index[x] >= k))
    && (forall x :: x in nodes ==> x in n0 && nodes[x] == n0[x])
  }

  /**
   * Releasing the node at position `k` of the walk; the walk goes on to its
   * successor, which is the anchor exactly when `k` is the last position.
   */
  lemma Release<K, V>(n0: map<NodeId, Node<K, V>>, anchor: Option<NodeId>, nextId: NodeId, order: seq<NodeId>,
                      index: map<NodeId, nat>, nodes: map<NodeId, Node<K, V>>, k: nat)
    requires RingInv(n0, anchor, nextId, order, index) && k < |order| && Kept(nodes, n0, index, k)
    ensures order[k] in nodes && nodes[order[k]].next == order[Succ(k, |order|)]
    ensures nodes[order[k]].next == order[0] <==> k + 1 == |order|
    ensures 0 < k ==> Kept(nodes - {order[k]}, n0, index, k + 1)
    ensures k == 0 && |order| == 1 ==> (nodes - {order[k]}).Keys == {}
  {
    assert index[order[k]] == k;
    Step(n0, order, index, k);
    if k == 0 && |order| == 1 {
      forall x | x in nodes ensures x == order[0] {
        assert order[index[x]] == x;
      }
    }
  }

  /** When the walk is back at the anchor, the anchor is the only node left. */
  lemma ReleaseDone<K, V>(n0: map<NodeId, Node<K, V>>, anchor: Option<NodeId>, nextId: NodeId, order: seq<NodeId>,
                          index: map<NodeId, nat>, nodes: map<NodeId, Node<K, V>>)
    requires RingInv(n0, anchor, nextId, order, index) && order != [] && Kept(nodes, n0, index, |order|)
    ensures order[0] in nodes && (nodes - {order[0]}).Keys == {}
  {
    assert index[order[0]] == 0;
    forall x | x in nodes ensures x == order[0] {
      assert order[index[x]] == x;
    }
  }

  /** The empty ring: no node, no anchor. */
  lemma Empty<K, V>(nodes: map<NodeId, Node<K, V>>, nextId: NodeId)
    requires nodes.Keys == {}
    ensures RingInv(nodes, None, nextId, [], map[]) && nodes == map[]
  {
  }

  /**
   * A ring whose anchor is its own successor holds that node alone; once it
   * is released the ring is empty.
   */
  lemma Sole<K, V>(nodes: map<NodeId, Node<K, V>>, anchor: Option<NodeId>, nextId: NodeId, order: seq<NodeId>,
                   index: map<NodeId, nat>, a: NodeId)
    requires RingInv(nodes, anchor, nextId, order, index) && anchor == Some(a)
    ensures a in nodes
    ensures nodes[a].next == a <==> |order| == 1
    ensures |order| == 1 ==> RingInv(nodes - {a}, None, nextId, [], map[])
  {
    Step(nodes, order, index, 0);
    if |order| == 1 {
      assert nodes.Keys == {a} by {
        forall x | x in nodes ensures x == a {
          assert order[index[x]] == x;
        }
      }
    }
  }

  /**
   * Splicing the fresh node `nextId` in after position `pos` keeps the ring
   * invariant, with the node listed right after `pos` and the anchor kept.
   */
  lemma SpliceIn<K, V>(nodes: map<NodeId, Node<K, V>>, anchor: Option<NodeId>, nextId: NodeId, order: seq<NodeId>,
                       index: map<NodeId, nat>, pos: nat, x: NodeId, y: NodeId, e: Entry<K, V>)
    requires RingInv(nodes, anchor, nextId, order, index) && pos < |order|
    requires x == order[pos] && y == order[Succ(pos, |order|)]
    ensures var m := LinkIn(nodes, x, y, nextId, e);
            && RingInv(m, anchor, nextId + 1, InsertAt(order, pos + 1, nextId), ShiftIn(index, pos + 1, nextId))
            && EntriesOf(m, InsertAt(order, pos + 1, nextId)) == InsertAt(EntriesOf(nodes, order), pos + 1, e)
  {
    var id := nextId;
    assert id !in nodes;
    var m := LinkIn(nodes, x, y, id, e);
    assert SplicedIn(nodes, order, pos, id, e, m);
    SpliceInIndexed(order, index, pos + 1, id);
    SpliceInLinked(nodes, order, index, pos, id, e, m);
    SpliceInEntries(nodes, order, pos, id, e, m);
    assert InsertAt(order, pos + 1, id)[0] == order[0];
  }

  /** The splice lists the new entry after position `pos` and keeps every other entry. */
  lemma SpliceInEntries<K, V>(nodes: map<NodeId, Node<K, V>>, order: seq<NodeId>, pos: nat, id: NodeId,
                              e: Entry<K, V>, m: map<NodeId, Node<K, V>>)
    requires (forall i :: 0 <= i < |order| ==> order[i] in nodes)
    requires pos < |order| && SplicedIn(nodes, order, pos, id, e, m)
    ensures EntriesOf(m, InsertAt(order, pos + 1, id)) == InsertAt(EntriesOf(nodes, order), pos + 1, e)
  {
    var o := InsertAt(order, pos + 1, id);
    var s, s' := EntriesOf(nodes, order), EntriesOf(m, o);
    forall j | 0 <= j < |o| ensures s'[j] == InsertAt(s, pos + 1, e)[j] {
      if j < pos + 1 {
        assert o[j] == order[j];
      } else if j > pos + 1 {
        assert o[j] == order[j - 1];
      }
    }
  }

  lemma SpliceInIndexed(order: seq<NodeId>, index: map<NodeId, nat>, p: nat, id: NodeId)
    requires Indexed(order, index) && p <= |order| && id !in index
    ensures Indexed(InsertAt(order, p, id), ShiftIn(index, p, id))
  {
    var o, idx := InsertAt(order, p, id), ShiftIn(index, p, id);
    forall j | 0 <= j < |o| ensures o[j] in idx && idx[o[j]] == j {
      if j < p {
        assert o[j] == order[j] && index[order[j]] == j;
      } else if j > p {
        assert o[j] == order[j - 1] && index[order[j - 1]] == j - 1;
      }
    }
    forall z | z in idx ensures idx[z] < |o| && o[idx[z]] == z {
      if z != id {
        var k := index[z];
        if k >= p {
          assert o[k + 1] == order[k];
        } else {
          assert o[k] == order[k];
        }
      }
    }
  }

  lemma SpliceInLinked<K, V>(nodes: map<NodeId, Node<K, V>>, order: seq<NodeId>, index: map<NodeId, nat>, pos: nat,
                             id: NodeId, e: Entry<K, V>, m: map<NodeId, Node<K, V>>)
    requires Linked(nodes, order) && Indexed(order, index) && index.Keys == nodes.Keys
    requires pos < |order| && id !in nodes && SplicedIn(nodes, order, pos, id, e, m)
    ensures Linked(m, InsertAt(order, pos + 1, id))
  {
    var n := |order|;
    var o := InsertAt(order, pos + 1, id);
    forall j | 0 <= j < |o| ensures o[j] in m {
      if j != pos + 1 {
        assert o[j] == order[if j < pos + 1 then j else j - 1];
      }
    }
    forall j | 0 <= j < |o|
      ensures m[o[j]].next == o[Succ(j, |o|)] && m[o[j]].previous == o[Pred(j, |o|)]
    {
      SpliceInLinkedAt(nodes, order, index, pos, id, e, m, j);
    }
  }

  lemma SpliceInLinkedAt<K, V>(nodes: map<NodeId, Node<K, V>>, order: seq<NodeId>, index: map<NodeId, nat>, pos: nat,
                               id: NodeId, e: Entry<K, V>, m: map<NodeId, Node<K, V>>, j: nat)
    requires Linked(nodes, order) && Indexed(order, index) && index.Keys == nodes.Keys
    requires pos < |order| && id !in nodes && SplicedIn(nodes, order, pos, id, e, m)
    requires j <= |order|
    ensures var o := InsertAt(order, pos + 1, id);
            o[j] in m && m[o[j]].next == o[Succ(j, |o|)] && m[o[j]].previous == o[Pred(j, |o|)]
  {
    var n := |order|;
    var o := InsertAt(order, pos + 1, id);
    var y := order[Succ(pos, n)];
    if j == pos + 1 {
      assert o[j] == id;
      assert o[Pred(j, |o|)] == order[pos];
      if pos + 1 == n {
        assert o[Succ(j, |o|)] == order[0];
      } else {
        assert o[Succ(j, |o|)] == order[pos + 1];
      }
    } else {
      var r := if j < pos + 1 then j else j - 1;
      assert o[j] == order[r];
      assert nodes[order[r]].next == order[Succ(r, n)];
      assert nodes[order[r]].previous == order[Pred(r, n)];
      // next: only the node at `pos` now points at the fresh node
      if r == pos {
        assert o[Succ(j, |o|)] == id;
      } else if j + 1 < |o| {
        assert Succ(j, |o|) == j + 1;
        assert o[j + 1] == order[Succ(r, n)];
      } else {
        assert o[Succ(j, |o|)] == order[0];
      }
      // previous: only the successor of `pos` now points back at the fresh node
      if order[r] == y {
        assert r == Succ(pos, n);
        assert o[Pred(j, |o|)] == id;
      } else if j == 0 {
        assert pos + 1 < n;
        assert o[Pred(j, |o|)] == order[n - 1];
      } else {
        assert j - 1 != pos + 1;
        assert o[j - 1] == order[Pred(r, n)];
      }
    }
  }

  /**
   * `m` is `nodes` with the node at position `i` of a ring of two or more
   * nodes unlinked: its neighbours point at each other (the rewiring done by
   * remove) and the node itself is released.
   */
  ghost predicate SplicedOut<K, V>(nodes: map<NodeId, Node<K, V>>, order: seq<NodeId>, i: nat, m: map<NodeId, Node<K, V>>)
    requires i < |order|
  {
    var x, nx, px := order[i], order[Succ(i, |order|)], order[Pred(i, |order|)];
    && m.Keys == nodes.Keys - {x}
    && px in m && nx in m
    && m[px].next == nx && m[nx].previous == px
    && (forall z {:trigger m[z]} :: z in m ==> z in nodes && m[z].key == nodes[z].key && m[z].info == nodes[z].info)
    && (forall z {:trigger m[z]} :: z in m && z != px ==> z in nodes && m[z].next == nodes[z].next)
    && (forall z {:trigger m[z]} :: z in m && z != nx ==> z in nodes && m[z].previous == nodes[z].previous)
  }

  /**
   * Splicing out the node at position `i` of a ring of two or more nodes
   * keeps the ring invariant, the anchor moving to the removed node's
   * successor.
   */
  lemma SpliceOut<K, V>(nodes: map<NodeId, Node<K, V>>, anchor: Option<NodeId>, nextId: NodeId, order: seq<NodeId>,
                        index: map<NodeId, nat>, i: nat, x: NodeId)
    requires RingInv(nodes, anchor, nextId, order, index) && 2 <= |order| && i < |order| && x == order[i]
    ensures x in nodes && nodes[x].next == order[Succ(i, |order|)] && nodes[x].previous == order[Pred(i, |order|)]
    ensures var m := LinkOut(nodes, x);
            && RingInv(m, Some(nodes[x].next), nextId, RemoveRotate(order, i), ShiftOut(index, |order|, i, x))
            && EntriesOf(m, RemoveRotate(order, i)) == RemoveRotate(EntriesOf(nodes, order), i)
  {
    var nx, px := order[Succ(i, |order|)], order[Pred(i, |order|)];
    assert nodes[x].next == nx && nodes[x].previous == px;
    assert index[nx] != index[x] && index[px] != index[x];
    var m := LinkOut(nodes, x);
    assert SplicedOut(nodes, order, i, m);
    SpliceOutIndexed(order, index, i);
    SpliceOutLinked(nodes, order, index, i, m);
    SpliceOutEntries(nodes, order, i, m);
    assert RemoveRotate(order, i)[0] == order[Succ(i, |order|)];
  }

  /** The splice drops the entry at position `i` and reads the rest from its successor. */
  lemma SpliceOutEntries<K, V>(nodes: map<NodeId, Node<K, V>>, order: seq<NodeId>, i: nat, m: map<NodeId, Node<K, V>>)
    requires (forall j :: 0 <= j < |order| ==> order[j] in nodes)
    requires forall j, k :: 0 <= j < k < |order| ==> order[j] != order[k]
    requires i < |order| && SplicedOut(nodes, order, i, m)
    ensures forall j :: 0 <= j < |order| - 1 ==> RemoveRotate(order, i)[j] in m
    ensures EntriesOf(m, RemoveRotate(order, i)) == RemoveRotate(EntriesOf(nodes, order), i)
  {
    var n := |order|;
    var o := RemoveRotate(order, i);
    var d := n - 1 - i;
    forall j | 0 <= j < |o| ensures o[j] in m {
      var r := if j < d then i + 1 + j else j - d;
      assert o[j] == order[r] && order[r] != order[i];
    }
    var s, s' := EntriesOf(nodes, order), EntriesOf(m, o);
    forall j | 0 <= j < |o| ensures s'[j] == RemoveRotate(s, i)[j] {
      assert o[j] == order[if j < d then i + 1 + j else j - d];
    }
  }

  lemma SpliceOutLinked<K, V>(nodes: map<NodeId, Node<K, V>>, order: seq<NodeId>, index: map<NodeId, nat>, i: nat,
                              m: map<NodeId, Node<K, V>>)
    requires Linked(nodes, order) && Indexed(order, index) && index.Keys == nodes.Keys
    requires 2 <= |order| && i < |order| && SplicedOut(nodes, order, i, m)
    ensures Linked(m, RemoveRotate(order, i))
  {
    var n := |order|;
    var o := RemoveRotate(order, i);
    var d := n - 1 - i;
    forall j | 0 <= j < |o| ensures o[j] in m {
      var r := if j < d then i + 1 + j else j - d;
      assert o[j] == order[r] && index[order[r]] == r && index[order[i]] == i;
    }
    forall j | 0 <= j < |o|
      ensures m[o[j]].next == o[Succ(j, |o|)] && m[o[j]].previous == o[Pred(j, |o|)]
    {
      SpliceOutLinkedAt(nodes, order, index, i, m, j);
    }
  }

  lemma SpliceOutIndexed(order: seq<NodeId>, index: map<NodeId, nat>, i: nat)
    requires Indexed(order, index) && i < |order|
    ensures Indexed(RemoveRotate(order, i), ShiftOut(index, |order|, i, order[i]))
  {
    var n := |order|;
    var o, idx := RemoveRotate(order, i), ShiftOut(index, n, i, order[i]);
    var d := n - 1 - i;
    forall j | 0 <= j < |o| ensures o[j] in idx && idx[o[j]] == j {
      var r := if j < d then i + 1 + j else j - d;
      assert o[j] == order[r] && index[order[r]] == r && index[order[i]] == i;
    }
    forall z | z in idx ensures idx[z] < |o| && o[idx[z]] == z {
      var k := index[z];
      if k > i {
        assert o[k - i - 1] == order[k];
      } else {
        assert o[k + d] == order[k];
      }
    }
  }

  lemma SpliceOutLinkedAt<K, V>(nodes: map<NodeId, Node<K, V>>, order: seq<NodeId>, index: map<NodeId, nat>, i: nat,
                                m: map<NodeId, Node<K, V>>, j: nat)
    requires Linked(nodes, order) && Indexed(order, index) && index.Keys == nodes.Keys
    requires 2 <= |order| && i < |order| && SplicedOut(nodes, order, i, m)
    requires j < |order| - 1
    ensures var o := RemoveRotate(order, i);
            o[j] in m && m[o[j]].next == o[Succ(j, |o|)] && m[o[j]].previous == o[Pred(j, |o|)]
  {
    var n := |order|;
    var o := RemoveRotate(order, i);
    var d := n - 1 - i;
    var r := if j < d then i + 1 + j else j - d;
    assert o[j] == order[r] && r != i;
    assert nodes[order[r]].next == order[Succ(r, n)];
    assert nodes[order[r]].previous == order[Pred(r, n)];
    if j + 1 < |o| {
      assert order[r] != order[Pred(i, n)];
      assert o[j + 1] == order[Succ(r, n)];
    } else {
      assert order[r] == order[Pred(i, n)];
      assert o[0] == order[Succ(i, n)];
    }
    if j > 0 {
      assert order[r] != order[Succ(i, n)];
      assert o[j - 1] == order[Pred(r, n)];
    } else {
      assert order[r] == order[Succ(i, n)];
      assert o[|o| - 1] == order[Pred(i, n)];
    }
  }

}
