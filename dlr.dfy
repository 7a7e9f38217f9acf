/**
 * The double linked ring DLR<Key, Info> and its Iterator.
 *
 * Nodes live in an arena: `nodes` maps a node id to the node's key, info and
 * its `next` and `previous` links, and `nextId` hands out the id of the next
 * node created (standing in for `new Node`). `anchor` is the source's `any`
 * pointer. The ghost `order` lists the node ids met when walking `next` from
 * the anchor once round, and the ghost `index` gives each node its place in
 * that walk; `Valid()` ties every link to them.
 */
module DLR {

  import opened Wrappers
  import opened RingSeq
  import opened RingLinks

  /** A cursor: the node it stands on, or None for the null Iterator. */
  datatype Iterator = Iterator(travel: Option<NodeId>)

  /** The source's `int`, the type of `occurrence` and of a cursor move. */
  type Int32 = x: int | -0x8000_0000 <= x < 0x8000_0000

  /**
   * The key-addressed mutations compare howMany's unsigned count with the
   * signed `occurrence`, which the usual arithmetic conversions turn into a
   * 32-bit unsigned value first.
   */
  function AsUnsigned(occurrence: Int32): (u: nat)
    ensures u < 0x1_0000_0000
    ensures occurrence >= 0 ==> u == occurrence
    ensures occurrence < 0 ==> u >= 0x8000_0000 && (u - occurrence) % 0x1_0000_0000 == 0
  {
    if occurrence >= 0 then occurrence else occurrence + 0x1_0000_0000
  }

  class Ring<K(==), V(==)> {

    var nodes: map<NodeId, Node<K, V>>
    var anchor: Option<NodeId>
    var nextId: NodeId
    ghost var order: seq<NodeId>
    ghost var index: map<NodeId, nat>

    /** The ring invariant, over this ring's fields. */
    ghost predicate Valid()
      reads this
    {
      RingInv(nodes, anchor, nextId, order, index)
    }

    /** The (key, info) entries in traversal order from the anchor. */
    ghost function Elements(): seq<Entry<K, V>>
      reads this
      requires Valid()
    {
      EntriesOf(nodes, order)
    }

    /** The cursor is null or stands on a node of this ring. */
    ghost predicate OnRing(it: Iterator)
      reads this
    {
      it.travel.None? || it.travel.value in nodes
    }

    /** Where node `x` stands in traversal order. */
    ghost function Position(x: NodeId): (i: nat)
      reads this
      requires Valid() && x in nodes
      ensures i < |order| && order[i] == x
    {
      index[x]
    }

    /** The links of node `x`, read off its position. */
    lemma LinksAt(x: NodeId)
      requires Valid() && x in nodes
      ensures nodes[x].next == order[Succ(Position(x), |order|)] && nodes[x].next in nodes
      ensures nodes[x].previous == order[Pred(Position(x), |order|)] && nodes[x].previous in nodes
    {
      var i := index[x];
      assert nodes[order[i]].next == order[Succ(i, |order|)];
    }

    /**
     * The structural invariant seen from one node: `previous` undoes `next`
     * and vice versa, and a lone node links to itself both ways.
     */
    lemma NextPreviousInverse(x: NodeId)
      requires Valid() && x in nodes
      ensures nodes[x].next in nodes && nodes[x].previous in nodes
      ensures nodes[nodes[x].next].previous == x
      ensures nodes[nodes[x].previous].next == x
      ensures |order| == 1 ==> nodes[x].next == x && nodes[x].previous == x
    {
      var i := Position(x);
      var n := |order|;
      LinksAt(x);
      var s, p := Succ(i, n), Pred(i, n);
      assert nodes[order[s]].previous == order[Pred(s, n)];
      assert nodes[order[p]].next == order[Succ(p, n)];
      assert Pred(s, n) == i && Succ(p, n) == i;
    }

    /** DLR(): an empty ring. */
    constructor ()
      ensures Valid() && Elements() == [] && anchor.None?
    {
      nodes := map[];
      anchor := None;
      nextId := 0;
      order := [];
      index := map[];
    }

    /** The copy constructor: an empty ring assigned from `src`. */
    constructor Copy(src: Ring<K, V>)
      requires src.Valid()
      ensures Valid() && Elements() == src.Elements()
    {
      nodes := map[];
      anchor := None;
      nextId := 0;
      order := [];
      index := map[];
      new;
      Assign(src);
    }

    /*************************************************************************
     * Iterator
     *************************************************************************/

    /** begin(): a cursor on the anchor, null on an empty ring. */
    function Begin(): (it: Iterator)
      reads this
      requires Valid()
      ensures OnRing(it)
      ensures order == [] ==> it.travel.None?
      ensures order != [] ==> it.travel == Some(order[0])
    {
      Iterator(anchor)
    }

    /** Iterator::operator++: the cursor moved to the successor node. */
    function Next(it: Iterator): (r: Iterator)
      reads this
      requires Valid() && it.travel.Some? && it.travel.value in nodes
      ensures r.travel.Some? && r.travel.value in nodes
      ensures r.travel.value == order[Succ(Position(it.travel.value), |order|)]
    {
      LinksAt(it.travel.value);
      Iterator(Some(nodes[it.travel.value].next))
    }

    /** Iterator::operator--: the cursor moved to the predecessor node. */
    function Prev(it: Iterator): (r: Iterator)
      reads this
      requires Valid() && it.travel.Some? && it.travel.value in nodes
      ensures r.travel.Some? && r.travel.value in nodes
      ensures r.travel.value == order[Pred(Position(it.travel.value), |order|)]
    {
      LinksAt(it.travel.value);
      Iterator(Some(nodes[it.travel.value].previous))
    }

    /** Iterator::operator+: a copy of the cursor moved `moveBy` times along `next`. */
    method Advance(it: Iterator, moveBy: Int32) returns (r: Iterator)
      requires Valid() && OnRing(it) && (moveBy > 0 ==> it.travel.Some?)
      ensures moveBy <= 0 ==> r == it
      ensures moveBy > 0 ==> r.travel.Some? && r.travel.value in nodes
                             && r.travel.value == order[Forward(Position(it.travel.value), moveBy, |order|)]
    {
      ghost var p := if it.travel.Some? then Position(it.travel.value) else 0;
      r := it;
      var i := 0;
      while i < moveBy
        invariant moveBy > 0 ==> 0 <= i <= moveBy
        invariant moveBy <= 0 ==> r == it
        invariant moveBy > 0 ==> r.travel.Some? && r.travel.value in nodes
                                 && r.travel.value == order[Forward(p, i, |order|)]
      {
        r := Next(r);
        i := i + 1;
      }
    }

    /** Iterator::operator-: a copy of the cursor moved `moveBy` times along `previous`. */
    method Retreat(it: Iterator, moveBy: Int32) returns (r: Iterator)
      requires Valid() && OnRing(it) && (moveBy > 0 ==> it.travel.Some?)
      ensures moveBy <= 0 ==> r == it
      ensures moveBy > 0 ==> r.travel.Some? && r.travel.value in nodes
                             && r.travel.value == order[Backward(Position(it.travel.value), moveBy, |order|)]
    {
      ghost var p := if it.travel.Some? then Position(it.travel.value) else 0;
      r := it;
      var i := 0;
      while i < moveBy
        invariant moveBy > 0 ==> 0 <= i <= moveBy
        invariant moveBy <= 0 ==> r == it
        invariant moveBy > 0 ==> r.travel.Some? && r.travel.value in nodes
                                 && r.travel.value == order[Backward(p, i, |order|)]
      {
        r := Prev(r);
        i := i + 1;
      }
    }

    /** Iterator::operator*: the key and info of the cursor's node. */
    function Deref(it: Iterator): (e: Entry<K, V>)
      reads this
      requires Valid() && it.travel.Some? && it.travel.value in nodes
      ensures e == Elements()[Position(it.travel.value)]
    {
      Entry(nodes[it.travel.value].key, nodes[it.travel.value].info)
    }

    /*************************************************************************
     * Queries
     *************************************************************************/

    /** find: a cursor on the `occurrence`-th node (from 1) whose key is `key`. */
    method Find(key: K, occurrence: Int32 := 1) returns (it: Iterator)
      requires Valid()
      ensures OnRing(it)
      ensures var m := NthMatch(Elements(), key, occurrence);
              if m.Some? then it.travel == Some(order[m.value]) else it.travel.None?
    {
      if anchor.None? {
        return Iterator(None);
      }
      var start := anchor.value;
      var i := 0;
      var travel := start;
      ghost var s := Elements();
      ghost var j := 0;
      var done := false;
      while !done
        invariant 0 <= j <= |order|
        invariant done <==> j == |order|
        invariant !done ==> travel == order[j]
        invariant i == CountKey(s[..j], key)
        invariant occurrence <= 0 || i < occurrence
        decreases |order| - j
      {
        if nodes[travel].key == key {
          i := i + 1;
          if i == occurrence {
            CountKeyStep(s, j, key);
            NthMatchIsTheMatch(s, key, occurrence, j);
            return Iterator(Some(travel));
          }
        }
        CountKeyStep(s, j, key);
        Step(nodes, order, index, j);
        travel := nodes[travel].next;
        j := j + 1;
        done := travel == start;
      }
      assert s[..j] == s;
      it := Iterator(None);
    }

    /** exists: some node carries `key`. */
    method Exists(key: K) returns (r: bool)
      requires Valid()
      ensures r <==> HasKey(Elements(), key)
    {
      if anchor.None? {
        return false;
      }
      var start := anchor.value;
      var travel := start;
      ghost var s := Elements();
      ghost var j := 0;
      var done := false;
      while !done
        invariant 0 <= j <= |order|
        invariant done <==> j == |order|
        invariant !done ==> travel == order[j]
        invariant forall m :: 0 <= m < j ==> s[m].key != key
        decreases |order| - j
      {
        if nodes[travel].key == key {
          assert s[j].key == key;
          return true;
        }
        Step(nodes, order, index, j);
        travel := nodes[travel].next;
        j := j + 1;
        done := travel == start;
      }
      return false;
    }

    /** howMany: the number of nodes whose key is `key`. */
    method HowMany(key: K) returns (count: nat)
      requires Valid()
      ensures count == CountKey(Elements(), key)
    {
      if anchor.None? {
        return 0;
      }
      count := 0;
      var start := anchor.value;
      var travel := start;
      ghost var s := Elements();
      ghost var j := 0;
      var done := false;
      while !done
        invariant 0 <= j <= |order|
        invariant done <==> j == |order|
        invariant !done ==> travel == order[j]
        invariant count == CountKey(s[..j], key)
        decreases |order| - j
      {
        CountKeyStep(s, j, key);
        if nodes[travel].key == key {
          count := count + 1;
        }
        Step(nodes, order, index, j);
        travel := nodes[travel].next;
        j := j + 1;
        done := travel == start;
      }
      assert s[..j] == s;
    }

    /** isEmpty: the ring has no node. */
    function IsEmpty(): (r: bool)
      reads this
      requires Valid()
      ensures r <==> Elements() == []
    {
      anchor.None?
    }

    /** length: the number of nodes met in one walk round the ring. */
    method Length() returns (n: nat)
      requires Valid()
      ensures n == |Elements()|
      ensures n == 0 <==> IsEmpty()
    {
      if anchor.None? {
        return 0;
      }
      n := 0;
      var start := anchor.value;
      var travel := start;
      var done := false;
      while !done
        invariant 0 <= n <= |order|
        invariant done <==> n == |order|
        invariant !done ==> travel == order[n]
        decreases |order| - n
      {
        Step(nodes, order, index, n);
        n := n + 1;
        travel := nodes[travel].next;
        done := travel == start;
      }
    }

    /*************************************************************************
     * Insertion
     *************************************************************************/

    /**
     * pushBack: a new node becomes the anchor's predecessor, the last node of
     * the traversal; on an empty ring it becomes the anchor and links to itself.
     */
    method PushBack(newKey: K, newInfo: V)
      requires Valid()
      modifies this
      ensures Valid()
      ensures nextId == old(nextId) + 1
      ensures order == old(order) + [old(nextId)]
      ensures Elements() == old(Elements()) + [Entry(newKey, newInfo)]
      ensures old(order) != [] ==> anchor == old(anchor)
      ensures old(order) == [] ==> anchor == Some(old(nextId))
                                   && nodes[old(nextId)].next == old(nextId)
                                   && nodes[old(nextId)].previous == old(nextId)
    {
      var id := nextId;
      if anchor.None? {
        Singleton(nodes, anchor, nextId, order, index, Entry(newKey, newInfo));
        nodes, anchor, nextId, order, index := map[id := Node(newKey, newInfo, id, id)], Some(id), nextId + 1, [id], map[id := 0];
      } else {
        var a := anchor.value;
        LinksAt(a);
        assert Pred(0, |order|) == |order| - 1;
        var last := nodes[a].previous;
        SpliceInBack(nodes, anchor, nextId, order, index, last, a, Entry(newKey, newInfo));
        var m := LinkIn(nodes, last, a, id, Entry(newKey, newInfo));
        nodes, nextId, order, index := m, nextId + 1, order + [id], ShiftIn(index, |order|, id);
      }
    }

    /** insertAfter(Iterator): a new node right after the cursor's node; false for a null cursor. */
    method InsertAfter(location: Iterator, newKey: K, newInfo: V) returns (ok: bool)
      requires Valid() && OnRing(location)
      modifies this
      ensures Valid()
      ensures ok <==> location.travel.Some?
      ensures !ok ==> unchanged(this)
      ensures ok ==> var i := old(Position(location.travel.value));
                     && nextId == old(nextId) + 1
                     && order == InsertAt(old(order), i + 1, old(nextId))
                     && Elements() == InsertAt(old(Elements()), i + 1, Entry(newKey, newInfo))
                     && anchor == old(anchor)
    {
      if location.travel.None? {
        return false;
      }
      var x := location.travel.value;
      ghost var i := Position(x);
      var id := nextId;
      LinksAt(x);
      var y := nodes[x].next;
      SpliceIn(nodes, anchor, nextId, order, index, i, x, y, Entry(newKey, newInfo));
      var m := LinkIn(nodes, x, y, id, Entry(newKey, newInfo));
      nodes, nextId, order, index := m, nextId + 1, InsertAt(order, i + 1, id), ShiftIn(index, i + 1, id);
      return true;
    }

    /**
     * insertBefore(Iterator): a new node right before the cursor's node; false
     * for a null cursor. The anchor stays, so a node put before the anchor is
     * read last.
     */
    method InsertBefore(location: Iterator, newKey: K, newInfo: V) returns (ok: bool)
      requires Valid() && OnRing(location)
      modifies this
      ensures Valid()
      ensures ok <==> location.travel.Some?
      ensures !ok ==> unchanged(this)
      ensures ok ==> var i := old(Position(location.travel.value));
                     var at := if i == 0 then |old(order)| else i;
                     && nextId == old(nextId) + 1
                     && order == InsertAt(old(order), at, old(nextId))
                     && Elements() == InsertAt(old(Elements()), at, Entry(newKey, newInfo))
                     && anchor == old(anchor)
    {
      if location.travel.None? {
        return false;
      }
      var x := location.travel.value;
      ghost var i := Position(x);
      ghost var pos := Pred(i, |order|);
      var id := nextId;
      LinksAt(x);
      assert Succ(pos, |order|) == i && pos + 1 == (if i == 0 then |order| else i);
      var p := nodes[x].previous;
      SpliceIn(nodes, anchor, nextId, order, index, pos, p, x, Entry(newKey, newInfo));
      var m := LinkIn(nodes, p, x, id, Entry(newKey, newInfo));
      nodes, nextId, order, index := m, nextId + 1, InsertAt(order, pos + 1, id), ShiftIn(index, pos + 1, id);
      return true;
    }

    /*************************************************************************
     * Removal
     *************************************************************************/

    /**
     * remove(Iterator): unlinks the cursor's node. The anchor always moves to
     * the removed node's successor, so the rest is read from there on.
     */
    method Remove(location: Iterator)
      requires Valid() && OnRing(location)
      modifies this
      ensures Valid()
      ensures location.travel.None? ==> unchanged(this)
      ensures location.travel.Some? ==>
                var i := old(Position(location.travel.value));
                && location.travel.value !in nodes
                && nextId == old(nextId)
                && order == RemoveRotate(old(order), i)
                && Elements() == RemoveRotate(old(Elements()), i)
                && (|old(order)| == 1 ==> anchor.None?)
                && (|old(order)| > 1 ==> anchor == Some(old(order)[Succ(i, |old(order)|)]))
    {
      if location.travel.None? {
        return;
      }
      var x := location.travel.value;
      ghost var i := Position(x);
      var a := anchor.value;
      Sole(nodes, anchor, nextId, order, index, a);
      if a == nodes[a].next {
        nodes, anchor, order, index := nodes - {a}, None, [], map[];
        return;
      }
      LinksAt(x);
      SpliceOut(nodes, anchor, nextId, order, index, i, x);
      nodes, anchor, order, index := LinkOut(nodes, x), Some(nodes[x].next), RemoveRotate(order, i), ShiftOut(index, |order|, i, x);
    }

    /**
     * clear, with each node released once: the nodes after the anchor in
     * traversal order, then the anchor. `released` lists the nodes deleted,
     * in the order they are deleted.
     */
    method Clear() returns (released: seq<NodeId>)
      requires Valid()
      modifies this
      ensures Valid()
      ensures nodes == map[] && anchor.None? && order == [] && nextId == old(nextId)
      ensures Elements() == []
      ensures old(order) == [] ==> released == []
      ensures old(order) != [] ==> released == old(order)[1..] + [old(order)[0]]
    {
      if anchor.None? {
        return [];
      }
      var start := anchor.value;
      ghost var n, n0 := |order|, nodes;
      Release(n0, anchor, nextId, order, index, nodes, 0);
      var travel := nodes[start].next;
      ghost var k := 1;
      released := [];
      while travel != start
        invariant n == |order| && order == old(order) && index == old(index) && n0 == old(nodes)
        invariant anchor == old(anchor) && nextId == old(nextId)
        invariant 1 <= k <= n && travel == order[if k == n then 0 else k]
        invariant travel == start <==> k == n
        invariant released == order[1..k]
        invariant Kept(nodes, n0, index, k)
        decreases n - k
      {
        Release(n0, anchor, nextId, order, index, nodes, k);
        var temp := travel;
        travel := nodes[travel].next;
        nodes := nodes - {temp};
        assert order[1..k + 1] == order[1..k] + [order[k]];
        released := released + [temp];
        k := k + 1;
      }
      ReleaseDone(n0, anchor, nextId, order, index, nodes);
      Empty(nodes - {start}, nextId);
      nodes, released, anchor, order, index := nodes - {start}, released + [start], None, [], map[];
    }

    /**
     * clear as written: a do-while loop started at the anchor's successor.
     * With two or more nodes it releases each node once, as Clear does; with
     * one node the loop already deletes the anchor, which is then deleted a
     * second time.
     */
    method ClearAsWritten() returns (released: seq<NodeId>)
      requires Valid()
      modifies this
      ensures Valid()
      ensures nodes == map[] && anchor.None? && order == [] && nextId == old(nextId)
      ensures old(order) == [] ==> released == []
      ensures |old(order)| == 1 ==> released == [old(order)[0], old(order)[0]]
      ensures |old(order)| >= 2 ==> released == old(order)[1..] + [old(order)[0]]
    {
      if anchor.None? {
        return [];
      }
      var start := anchor.value;
      ghost var n, n0 := |order|, nodes;
      Release(n0, anchor, nextId, order, index, nodes, 0);
      var travel := nodes[start].next;
      ghost var t: nat := Succ(0, n);
      released := [];
      var done := false;
      while !done
        invariant n == |order| && order == old(order) && index == old(index) && n0 == old(nodes)
        invariant anchor == old(anchor) && nextId == old(nextId)
        invariant t < n && travel == order[t]
        invariant !done ==> (t == 0 <==> n == 1)
        invariant !done ==> released == (if t == 0 then [] else order[1..t]) && Kept(nodes, n0, index, t)
        invariant done ==> t == 0 && released == if n == 1 then [order[0]] else order[1..]
        invariant done && n == 1 ==> nodes.Keys == {}
        invariant done && n > 1 ==> Kept(nodes, n0, index, n)
        decreases if done then 0 else n - t
      {
        Release(n0, anchor, nextId, order, index, nodes, t);
        var temp := travel;
        travel := nodes[travel].next;
        nodes := nodes - {temp};
        if t > 0 {
          assert order[1..t + 1] == order[1..t] + [order[t]];
        }
        released := released + [temp];
        t := Succ(t, n);
        done := travel == start;
      }
      if n > 1 {
        ReleaseDone(n0, anchor, nextId, order, index, nodes);
      }
      Empty(nodes - {start}, nextId);
      nodes, released, anchor, order, index := nodes - {start}, released + [start], None, [], map[];
    }

    /*************************************************************************
     * Key-addressed mutations
     *************************************************************************/

    /**
     * insertAfter(key, ...): a new node after the `occurrence`-th node with
     * `key`. False, with no change, on an empty ring, an absent key or too
     * few matches; with `occurrence` below 1 the guards pass and find yields
     * a null cursor, so nothing changes either.
     */
    method InsertAfterKey(key: K, newKey: K, newInfo: V, occurrence: Int32 := 1) returns (ok: bool)
      requires Valid()
      modifies this
      ensures Valid()
      ensures var m := NthMatch(old(Elements()), key, occurrence);
              && (ok <==> m.Some?)
              && (!ok ==> unchanged(this))
              && (ok ==> nextId == old(nextId) + 1
                         && order == InsertAt(old(order), m.value + 1, old(nextId))
                         && Elements() == InsertAt(old(Elements()), m.value + 1, Entry(newKey, newInfo))
                         && anchor == old(anchor))
    {
      if anchor.None? {
        return false;
      }
      var count := HowMany(key);
      if count == 0 {
        return false;
      }
      if count < AsUnsigned(occurrence) {
        return false;
      }
      var location := Find(key, occurrence);
      ok := InsertAfter(location, newKey, newInfo);
    }

    /** insertBefore(key, ...): as InsertAfterKey, the new node going before the match. */
    method InsertBeforeKey(key: K, newKey: K, newInfo: V, occurrence: Int32 := 1) returns (ok: bool)
      requires Valid()
      modifies this
      ensures Valid()
      ensures var m := NthMatch(old(Elements()), key, occurrence);
              && (ok <==> m.Some?)
              && (!ok ==> unchanged(this))
              && (ok ==> var at := if m.value == 0 then |old(order)| else m.value;
                         && nextId == old(nextId) + 1
                         && order == InsertAt(old(order), at, old(nextId))
                         && Elements() == InsertAt(old(Elements()), at, Entry(newKey, newInfo))
                         && anchor == old(anchor))
    {
      if anchor.None? {
        return false;
      }
      var count := HowMany(key);
      if count == 0 {
        return false;
      }
      if count < AsUnsigned(occurrence) {
        return false;
      }
      var location := Find(key, occurrence);
      ok := InsertBefore(location, newKey, newInfo);
    }

    /**
     * remove(key, occurrence): removes the `occurrence`-th node with `key`;
     * no change on an empty ring, an absent key, too few matches or an
     * `occurrence` below 1.
     */
    method RemoveKey(key: K, occurrence: Int32 := 1)
      requires Valid()
      modifies this
      ensures Valid()
      ensures var m := NthMatch(old(Elements()), key, occurrence);
              && (m.None? ==> unchanged(this))
              && (m.Some? ==> old(order)[m.value] !in nodes
                              && nextId == old(nextId)
                              && order == RemoveRotate(old(order), m.value)
                              && Elements() == RemoveRotate(old(Elements()), m.value)
                              && (|old(order)| == 1 ==> anchor.None?)
                              && (|old(order)| > 1 ==> anchor == Some(old(order)[Succ(m.value, |old(order)|)])))
    {
      if anchor.None? {
        return;
      }
      var count := HowMany(key);
      if count == 0 {
        return;
      }
      if count < AsUnsigned(occurrence) {
        return;
      }
      var location := Find(key, occurrence);
      Remove(location);
    }

    /*************************************************************************
     * Assignment and comparison
     *************************************************************************/

    /**
     * operator=: a no-op on itself; otherwise the ring is cleared and refilled
     * by pushBack with the entries of `src` read from its anchor.
     */
    method Assign(src: Ring<K, V>)
      requires Valid() && src.Valid()
      modifies this
      ensures Valid()
      ensures Elements() == old(src.Elements())
      ensures src == this ==> unchanged(this)
      ensures src != this ==> unchanged(src)
    {
      if src == this {
        return;
      }
      var _ := Clear();
      if src.anchor.None? {
        return;
      }
      var start := src.anchor.value;
      var travel := start;
      ghost var s := src.Elements();
      ghost var j := 0;
      var done := false;
      while !done
        invariant Valid() && src.Valid() && unchanged(src)
        invariant 0 <= j <= |src.order|
        invariant done <==> j == |src.order|
        invariant !done ==> travel == src.order[j]
        invariant Elements() == s[..j]
        decreases |src.order| - j
      {
        PushBack(src.nodes[travel].key, src.nodes[travel].info);
        assert s[..j + 1] == s[..j] + [s[j]];
        Step(src.nodes, src.order, src.index, j);
        travel := src.nodes[travel].next;
        j := j + 1;
        done := travel == start;
      }
      assert s[..j] == s;
    }

    /** operator== with the info comparison intended: same entries in the same order from both anchors. */
    method Equal(other: Ring<K, V>) returns (r: bool)
      requires Valid() && other.Valid()
      ensures r <==> Elements() == other.Elements()
    {
      var n1 := Length();
      var n2 := other.Length();
      if n1 != n2 {
        return false;
      }
      if anchor.None? {
        return true;
      }
      var a1, a2 := anchor.value, other.anchor.value;
      var travel1, travel2 := a1, a2;
      ghost var s1, s2 := Elements(), other.Elements();
      ghost var j := 0;
      var done := false;
      while !done
        invariant 0 <= j <= n1
        invariant done <==> j == n1
        invariant !done ==> travel1 == order[j] && travel2 == other.order[j]
        invariant forall m :: 0 <= m < j ==> s1[m] == s2[m]
        decreases n1 - j
      {
        if nodes[travel1].key != other.nodes[travel2].key || nodes[travel1].info != other.nodes[travel2].info {
          assert s1[j] != s2[j];
          return false;
        }
        Step(nodes, order, index, j);
        Step(other.nodes, other.order, other.index, j);
        travel1 := nodes[travel1].next;
        travel2 := other.nodes[travel2].next;
        j := j + 1;
        done := !(travel1 != a1 && travel2 != a2);
      }
      return true;
    }

    /**
     * operator== as written: the info test compares the other ring's info
     * with itself, so only the keys are compared.
     */
    method EqualAsWritten(other: Ring<K, V>) returns (r: bool)
      requires Valid() && other.Valid()
      ensures r <==> KeysOf(Elements()) == KeysOf(other.Elements())
    {
      var n1 := Length();
      var n2 := other.Length();
      if n1 != n2 {
        return false;
      }
      if anchor.None? {
        return true;
      }
      var a1, a2 := anchor.value, other.anchor.value;
      var travel1, travel2 := a1, a2;
      ghost var k1, k2 := KeysOf(Elements()), KeysOf(other.Elements());
      ghost var j := 0;
      var done := false;
      while !done
        invariant 0 <= j <= n1
        invariant done <==> j == n1
        invariant !done ==> travel1 == order[j] && travel2 == other.order[j]
        invariant forall m :: 0 <= m < j ==> k1[m] == k2[m]
        decreases n1 - j
      {
        if nodes[travel1].key != other.nodes[travel2].key || other.nodes[travel2].info != other.nodes[travel2].info {
          assert k1[j] != k2[j];
          return false;
        }
        Step(nodes, order, index, j);
        Step(other.nodes, other.order, other.index, j);
        travel1 := nodes[travel1].next;
        travel2 := other.nodes[travel2].next;
        j := j + 1;
        done := !(travel1 != a1 && travel2 != a2);
      }
      return true;
    }

    /** operator!=: the negation of operator==. */
    method NotEqual(other: Ring<K, V>) returns (r: bool)
      requires Valid() && other.Valid()
      ensures r <==> Elements() != other.Elements()
    {
      var same := Equal(other);
      r := !same;
    }

    /** operator!= as written: the negation of the operator== of DLR.h, which compares keys only. */
    method NotEqualAsWritten(other: Ring<K, V>) returns (r: bool)
      requires Valid() && other.Valid()
      ensures r <==> KeysOf(Elements()) != KeysOf(other.Elements())
    {
      var same := EqualAsWritten(other);
      r := !same;
    }
  }
}
