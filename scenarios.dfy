/**
 * Client code driving the ring through the behaviours its documentation
 * promises: pushBack order, occurrence resolution, insertion and removal by
 * key, the anchor moving on removal, equality, copying, clearing, and a
 * cursor going once round. Each method's contract states the outcome.
 */
module Scenarios {

  import opened Wrappers
  import opened RingSeq
  import opened RingLinks
  import opened DLR

  /** A fresh ring filled by pushBack with `es`, in order. */
  method Build<K(==), V(==)>(es: seq<Entry<K, V>>) returns (r: Ring<K, V>)
    ensures fresh(r) && r.Valid() && r.Elements() == es
  {
    r := new Ring();
    var i := 0;
    while i < |es|
      invariant 0 <= i <= |es|
      invariant fresh(r) && r.Valid() && r.Elements() == es[..i]
    {
      r.PushBack(es[i].key, es[i].info);
      assert es[..i + 1] == es[..i] + [es[i]];
      i := i + 1;
    }
    assert es[..i] == es;
  }

  /** Three pushBacks on an empty ring read back in the order pushed, from the first one. */
  method PushBackOrder() returns (r: Ring<char, int>, first: Entry<char, int>)
    ensures r.Valid() && r.Elements() == [Entry('a', 1), Entry('b', 2), Entry('c', 3)]
    ensures first == Entry('a', 1)
  {
    r := new Ring();
    r.PushBack('a', 1);
    r.PushBack('b', 2);
    r.PushBack('c', 3);
    first := r.Deref(r.Begin());
  }

  /**
   * On [(a,1),(b,2),(a,3),(a,4)], the second `a` is (a,3), there is no
   * fourth `a`, and `a` occurs three times.
   */
  method OccurrenceResolution() returns (second: Option<Entry<char, int>>, fourthFound: bool, count: nat)
    ensures second == Some(Entry('a', 3))
    ensures !fourthFound
    ensures count == 3
  {
    var s := [Entry('a', 1), Entry('b', 2), Entry('a', 3), Entry('a', 4)];
    var r := Build(s);
    assert CountKey(s[..2], 'a') == 1 by {
      assert s[..2][..1] == [Entry('a', 1)];
      CountKeySingle(Entry('a', 1), 'a');
    }
    NthMatchIsTheMatch(s, 'a', 2, 2);
    CountKeyAppend(s[..2], s[2..], 'a');
    assert s[..2] + s[2..] == s;
    assert CountKey(s[2..], 'a') == 2 by {
      CountKeyCons(s[2..], 'a');
      assert s[2..][1..] == [Entry('a', 4)];
      CountKeySingle(Entry('a', 4), 'a');
    }
    var it2 := r.Find('a', 2);
    second := if it2.travel.Some? then Some(r.Deref(it2)) else None;
    var it4 := r.Find('a', 4);
    fourthFound := it4.travel.Some?;
    count := r.HowMany('a');
  }

  /** insertAfter(b, x, 9) on [(a,1),(b,2),(c,3)] puts (x,9) right after (b,2). */
  method InsertAfterB() returns (ok: bool, same: bool)
    ensures ok && same
  {
    var s := [Entry('a', 1), Entry('b', 2), Entry('c', 3)];
    var r := Build(s);
    assert s[..1] == [Entry('a', 1)];
    CountKeySingle(Entry('a', 1), 'b');
    NthMatchIsTheMatch(s, 'b', 1, 1);
    ok := r.InsertAfterKey('b', 'x', 9, 1);
    var expected := Build([Entry('a', 1), Entry('b', 2), Entry('x', 9), Entry('c', 3)]);
    same := r.Equal(expected);
  }

  /** insertBefore(b, x, 9) on [(a,1),(b,2),(c,3)] puts (x,9) right before (b,2). */
  method InsertBeforeB() returns (ok: bool, same: bool)
    ensures ok && same
  {
    var s := [Entry('a', 1), Entry('b', 2), Entry('c', 3)];
    var r := Build(s);
    assert s[..1] == [Entry('a', 1)];
    CountKeySingle(Entry('a', 1), 'b');
    NthMatchIsTheMatch(s, 'b', 1, 1);
    ok := r.InsertBeforeKey('b', 'x', 9, 1);
    var expected := Build([Entry('a', 1), Entry('x', 9), Entry('b', 2), Entry('c', 3)]);
    same := r.Equal(expected);
  }

  /**
   * Inserting before the anchor leaves the anchor in place, so it does what
   * pushBack does.
   */
  method BeforeAnchorIsPushBack<K(==), V(==)>(src: Ring<K, V>, k: K, v: V) returns (ok: bool, same: bool)
    requires src.Valid() && !src.IsEmpty()
    ensures ok && same
  {
    var r1 := new Ring.Copy(src);
    var r2 := new Ring.Copy(src);
    ok := r1.InsertBefore(r1.Begin(), k, v);
    r2.PushBack(k, v);
    same := r1.Equal(r2);
  }

  /**
   * A cursor taken before a key-addressed insertion still stands on its node
   * afterwards: on [(a,1),(b,2),(c,3)], a cursor on (b,2) reads (b,2) after
   * insertAfter(a, x, 9), and one step along next from it reads (c,3).
   */
  method CursorSurvivesInsert() returns (here: Entry<char, int>, after: Entry<char, int>)
    ensures here == Entry('b', 2) && after == Entry('c', 3)
  {
    var s := [Entry('a', 1), Entry('b', 2), Entry('c', 3)];
    var r := Build(s);
    assert s[..0] == [];
    NthMatchIsTheMatch(s, 'a', 1, 0);
    var it := r.Next(r.Begin());
    ghost var b := r.order[1];
    var ok := r.InsertAfterKey('a', 'x', 9);
    assert r.order[2] == b && r.Elements()[2] == Entry('b', 2);
    here := r.Deref(it);
    after := r.Deref(r.Next(it));
  }

  /** remove(a) on [(a,1),(b,2),(c,3)] leaves [(b,2),(c,3)] with the anchor on (b,2). */
  method AnchorShift() returns (n: nat, first: Entry<char, int>)
    ensures n == 2 && first == Entry('b', 2)
  {
    var s := [Entry('a', 1), Entry('b', 2), Entry('c', 3)];
    var r := Build(s);
    assert s[..0] == [];
    NthMatchIsTheMatch(s, 'a', 1, 0);
    r.RemoveKey('a');
    assert r.Elements() == [Entry('b', 2), Entry('c', 3)];
    n := r.Length();
    first := r.Deref(r.Begin());
  }

  /** Removing the only node of a ring leaves it empty, of length 0. */
  method SoleNodeRemoval() returns (empty: bool, n: nat)
    ensures empty && n == 0
  {
    var r := Build([Entry('a', 1)]);
    r.Remove(r.Begin());
    empty := r.IsEmpty();
    n := r.Length();
  }

  /** [(a,1),(b,2)] and [(b,2),(a,1)] hold the same pairs but are not equal. */
  method OrderSensitiveEquality() returns (eq: bool, ne: bool)
    ensures !eq && ne
  {
    var r1 := Build([Entry('a', 1), Entry('b', 2)]);
    var r2 := Build([Entry('b', 2), Entry('a', 1)]);
    assert r1.Elements()[0] != r2.Elements()[0];
    eq := r1.Equal(r2);
    ne := r1.NotEqual(r2);
  }

  /**
   * A copy equals its source, and mutating the copy leaves the source as it
   * was.
   */
  method CopyRoundTrip<K(==), V(==)>(src: Ring<K, V>, k: K, v: V) returns (eq: bool, srcKept: bool)
    requires src.Valid()
    ensures eq && srcKept
  {
    var c := new Ring.Copy(src);
    eq := c.Equal(src);
    var snapshot := new Ring.Copy(src);
    c.PushBack(k, v);
    srcKept := src.Equal(snapshot);
  }

  /** Assigning a ring to itself changes nothing. */
  method SelfAssignment<K(==), V(==)>(r: Ring<K, V>) returns (same: bool)
    requires r.Valid()
    modifies r
    ensures r.Valid() && same
  {
    var snapshot := new Ring.Copy(r);
    r.Assign(r);
    same := r.Equal(snapshot);
  }

  /** remove(a, 5) with fewer than five `a`s leaves the length unchanged. */
  method FailureNonMutation() returns (before: nat, after: nat)
    ensures before == after == 3
  {
    var r := Build([Entry('a', 1), Entry('b', 2), Entry('a', 3)]);
    before := r.Length();
    r.RemoveKey('a', 5);
    after := r.Length();
  }

  /** clear twice: the second call finds the ring empty and releases nothing. */
  method ClearTwice() returns (firstReleased: nat, secondReleased: nat, empty: bool)
    ensures firstReleased == 3 && secondReleased == 0 && empty
  {
    var r := Build([Entry('a', 1), Entry('b', 2), Entry('c', 3)]);
    var rel1 := r.Clear();
    var rel2 := r.Clear();
    firstReleased, secondReleased := |rel1|, |rel2|;
    empty := r.IsEmpty();
  }

  /**
   * Cycle closure: on any ring, moving a cursor `length()` steps along `next`,
   * or along `previous`, brings it back to the node it started on (for a
   * length that fits the `int` a move takes).
   */
  method CycleClosure<K(==), V(==)>(r: Ring<K, V>, it: Iterator) returns (forward: Iterator, backward: Iterator)
    requires r.Valid() && it.travel.Some? && it.travel.value in r.nodes && |r.Elements()| < 0x8000_0000
    ensures forward == it && backward == it
  {
    var n := r.Length();
    forward := r.Advance(it, n);
    backward := r.Retreat(it, n);
    ForwardFullCycle(r.Position(it.travel.value), n);
    BackwardFullCycle(r.Position(it.travel.value), n);
  }

  /**
   * operator== as written calls [(a,1)] and [(a,2)] equal, and operator!= as
   * written calls them not different; with the info compared both answers flip.
   */
  method EqualIgnoresInfo() returns (asWritten: bool, intended: bool, differAsWritten: bool, differIntended: bool)
    ensures asWritten && !intended
    ensures !differAsWritten && differIntended
  {
    var r1 := Build([Entry('a', 1)]);
    var r2 := Build([Entry('a', 2)]);
    asWritten := r1.EqualAsWritten(r2);
    intended := r1.Equal(r2);
    differAsWritten := r1.NotEqualAsWritten(r2);
    differIntended := r1.NotEqual(r2);
  }

  /** clear as written on a one-node ring deletes that node twice; Clear deletes it once. */
  method ClearReleasesTwice() returns (asWritten: seq<NodeId>, intended: seq<NodeId>)
    ensures |asWritten| == 2 && asWritten[0] == asWritten[1]
    ensures |intended| == 1
  {
    var r1 := Build([Entry('a', 1)]);
    asWritten := r1.ClearAsWritten();
    var r2 := Build([Entry('a', 1)]);
    intended := r2.Clear();
  }
}
