/**
 * The abstract view of a ring: the sequence of (key, info) entries read from
 * the anchor along the `next` links, and the specification functions that the
 * ring's queries and mutations are proved against.
 */
module RingSeq {

  import opened Wrappers

  /** One node's payload, as the ring's dereference operator exposes it. */
  datatype Entry<K, V> = Entry(key: K, info: V)

  /*************************************************************************
   * Counting and searching by key (howMany, exists, find)
   *************************************************************************/

  /** The number of entries whose key is `k`, counted over one traversal. */
  function CountKey<K(==), V>(s: seq<Entry<K, V>>, k: K): (c: nat)
    ensures c <= |s|
  {
    if s == [] then 0
    else CountKey(s[..|s| - 1], k) + (if s[|s| - 1].key == k then 1 else 0)
  }

  /** Some entry carries key `k`. */
  ghost predicate HasKey<K, V>(s: seq<Entry<K, V>>, k: K)
  {
    exists i :: 0 <= i < |s| && s[i].key == k
  }

  /** Counting a prefix one entry further adds that entry's match. */
  lemma CountKeyStep<K, V>(s: seq<Entry<K, V>>, j: nat, k: K)
    requires j < |s|
    ensures CountKey(s[..j + 1], k) == CountKey(s[..j], k) + (if s[j].key == k then 1 else 0)
  {
    assert s[..j + 1][..j] == s[..j];
  }

  lemma {:induction false} CountKeyAppend<K, V>(a: seq<Entry<K, V>>, b: seq<Entry<K, V>>, k: K)
    ensures CountKey(a + b, k) == CountKey(a, k) + CountKey(b, k)
    decreases |b|
  {
    if b == [] {
      assert a + b == a;
    } else {
      CountKeyAppend(a, b[..|b| - 1], k);
      assert (a + b)[..|a + b| - 1] == a + b[..|b| - 1];
    }
  }

  /** Counting from the front: the first entry's match plus the rest's count. */
  lemma CountKeyCons<K, V>(s: seq<Entry<K, V>>, k: K)
    requires s != []
    ensures CountKey(s, k) == (if s[0].key == k then 1 else 0) + CountKey(s[1..], k)
  {
    CountKeyAppend([s[0]], s[1..], k);
    assert [s[0]] + s[1..] == s;
  }

  /** `exists` and `howMany` agree: a key is present iff it is counted at least once. */
  lemma {:induction false} HasKeyIffCounted<K, V>(s: seq<Entry<K, V>>, k: K)
    ensures HasKey(s, k) <==> CountKey(s, k) > 0
    decreases |s|
  {
    if s != [] {
      var p := s[..|s| - 1];
      HasKeyIffCounted(p, k);
      if HasKey(p, k) {
        var i :| 0 <= i < |p| && p[i].key == k;
        assert s[i].key == k;
      }
      if HasKey(s, k) && s[|s| - 1].key != k {
        var i :| 0 <= i < |s| && s[i].key == k;
        assert p[i].key == k;
      }
    }
  }

  /**
   * The position of the `occurrence`-th entry (counted from 1) whose key is
   * `k`, or None when there are fewer matches or `occurrence` is below 1.
   */
  function NthMatch<K(==), V>(s: seq<Entry<K, V>>, k: K, occurrence: int): (r: Option<nat>)
    ensures r.Some? <==> 1 <= occurrence <= CountKey(s, k)
    ensures r.Some? ==> r.value < |s| && s[r.value].key == k
                        && CountKey(s[..r.value], k) == occurrence - 1
    decreases |s|
  {
    if s == [] then None
    else
      CountKeyCons(s, k);
      if s[0].key == k && occurrence == 1 then
        assert s[..0] == [];
        Some(0)
      else
        var rest := NthMatch(s[1..], k, if s[0].key == k then occurrence - 1 else occurrence);
        if rest.None? then None
        else
          assert s[..rest.value + 1] == [s[0]] + s[1..][..rest.value];
          CountKeyAppend([s[0]], s[1..][..rest.value], k);
          Some(rest.value + 1)
  }

  /** The converse of NthMatch's contract: the match preceded by exactly `occurrence - 1` matches is the one found. */
  lemma {:induction false} NthMatchIsTheMatch<K, V>(s: seq<Entry<K, V>>, k: K, occurrence: int, i: nat)
    requires i < |s| && s[i].key == k && CountKey(s[..i], k) == occurrence - 1
    ensures NthMatch(s, k, occurrence) == Some(i)
    decreases |s|
  {
    CountKeyCons(s, k);
    if i == 0 {
      assert s[..0] == [];
    } else {
      assert s[..i] == [s[0]] + s[1..][..i - 1];
      CountKeyAppend([s[0]], s[1..][..i - 1], k);
      NthMatchIsTheMatch(s[1..], k, if s[0].key == k then occurrence - 1 else occurrence, i - 1);
    }
  }

  /*************************************************************************
   * How the abstract sequence changes under the ring's mutations
   *************************************************************************/

  /** `s` with `e` placed at position `i`. */
  function InsertAt<T>(s: seq<T>, i: nat, e: T): (r: seq<T>)
    requires i <= |s|
    ensures |r| == |s| + 1 && r[i] == e
    ensures forall j {:trigger r[j]} :: 0 <= j < i ==> r[j] == s[j]
    ensures forall j {:trigger r[j]} :: i < j < |r| ==> r[j] == s[j - 1]
  {
    s[..i] + [e] + s[i..]
  }

  /**
   * The ring read from the new anchor after the entry at `i` is unlinked:
   * the anchor moves to the removed entry's successor.
   */
  function RemoveRotate<T>(s: seq<T>, i: nat): (r: seq<T>)
    requires i < |s|
    ensures |r| == |s| - 1
    ensures forall j {:trigger r[j]} :: 0 <= j < |s| - 1 - i ==> r[j] == s[i + 1 + j]
    ensures forall j {:trigger r[j]} :: |s| - 1 - i <= j < |r| ==> r[j] == s[j - (|s| - 1 - i)]
  {
    s[i + 1..] + s[..i]
  }

  /**
   * Removal keeps the cyclic order of the rest: reading the old ring from the
   * removed entry's successor gives the new ring followed by the removed entry.
   */
  lemma RemoveRotateKeepsCyclicOrder<T>(s: seq<T>, i: nat)
    requires i < |s|
    ensures RemoveRotate(s, i) + [s[i]] == s[i + 1..] + s[..i + 1]
    ensures multiset(RemoveRotate(s, i)) + multiset{s[i]} == multiset(s)
  {
    assert s[..i + 1] == s[..i] + [s[i]];
    assert s == s[..i] + [s[i]] + s[i + 1..];
  }

  /** A single entry counts 1 exactly when it matches. */
  lemma CountKeySingle<K, V>(e: Entry<K, V>, k: K)
    ensures CountKey([e], k) == if e.key == k then 1 else 0
  {
    assert [e][..0] == [];
  }

  /** Counting across an entry placed between two pieces. */
  lemma CountKeyMiddle<K, V>(front: seq<Entry<K, V>>, e: Entry<K, V>, back: seq<Entry<K, V>>, k: K)
    ensures CountKey(front + ([e] + back), k)
            == CountKey(front, k) + CountKey(back, k) + (if e.key == k then 1 else 0)
  {
    CountKeyAppend(front, [e] + back, k);
    CountKeyAppend([e], back, k);
    CountKeySingle(e, k);
  }

  /** An insertion adds one match exactly when the new key is the one counted. */
  lemma {:induction false} CountKeyInsert<K, V>(s: seq<Entry<K, V>>, i: nat, e: Entry<K, V>, k: K)
    requires i <= |s|
    ensures CountKey(InsertAt(s, i, e), k) == CountKey(s, k) + (if e.key == k then 1 else 0)
  {
    var front, back := s[..i], s[i..];
    assert InsertAt(s, i, e) == front + ([e] + back);
    CountKeyMiddle(front, e, back, k);
    assert s == front + back;
    CountKeyAppend(front, back, k);
  }

  /** A removal takes away one match exactly when the removed key is the one counted. */
  lemma CountKeyRemove<K, V>(s: seq<Entry<K, V>>, i: nat, k: K)
    requires i < |s|
    ensures CountKey(RemoveRotate(s, i), k) + (if s[i].key == k then 1 else 0) == CountKey(s, k)
  {
    var front, rest := s[..i], s[i..];
    assert s == front + rest;
    CountKeyAppend(front, rest, k);
    CountKeyCons(rest, k);
    assert rest[1..] == s[i + 1..];
    CountKeyAppend(s[i + 1..], front, k);
  }

  /*************************************************************************
   * Equality (operator==)
   *************************************************************************/

  /** The keys in traversal order: all that the comparison as written looks at. */
  function KeysOf<K, V>(s: seq<Entry<K, V>>): (ks: seq<K>)
    ensures |ks| == |s| && forall i :: 0 <= i < |s| ==> ks[i] == s[i].key
  {
    seq(|s|, i requires 0 <= i < |s| => s[i].key)
  }

  /*************************************************************************
   * Cursor movement (operator+, operator-)
   *************************************************************************/

  /** The position after one step along `next` on a ring of `n` nodes. */
  function Succ(i: nat, n: nat): nat
    requires i < n
  {
    if i + 1 < n then i + 1 else 0
  }

  /** The position after one step along `previous` on a ring of `n` nodes. */
  function Pred(i: nat, n: nat): nat
    requires i < n
  {
    if i == 0 then n - 1 else i - 1
  }

  /** The position reached from `i` after `steps` steps along `next`. */
  function Forward(i: nat, steps: nat, n: nat): (r: nat)
    requires i < n
    ensures r < n
  {
    if steps == 0 then i else Succ(Forward(i, steps - 1, n), n)
  }

  /** The position reached from `i` after `steps` steps along `previous`. */
  function Backward(i: nat, steps: nat, n: nat): (r: nat)
    requires i < n
    ensures r < n
  {
    if steps == 0 then i else Pred(Backward(i, steps - 1, n), n)
  }

  /** Away from the wrap-around, `steps` steps forward add `steps`. */
  lemma {:induction false} ForwardNoWrap(i: nat, steps: nat, n: nat)
    requires i + steps < n
    ensures Forward(i, steps, n) == i + steps
  {
    if steps > 0 {
      ForwardNoWrap(i, steps - 1, n);
    }
  }

  lemma {:induction false} ForwardAdd(i: nat, a: nat, b: nat, n: nat)
    requires i < n
    ensures Forward(i, a + b, n) == Forward(Forward(i, a, n), b, n)
    decreases b
  {
    if b > 0 {
      ForwardAdd(i, a, b - 1, n);
    }
  }

  /** Going round once along `next` returns to the start. */
  lemma ForwardFullCycle(i: nat, n: nat)
    requires i < n
    ensures Forward(i, n, n) == i
  {
    ForwardAdd(i, n - 1 - i, i + 1, n);
    ForwardNoWrap(i, n - 1 - i, n);
    ForwardAdd(n - 1, 1, i, n);
    if i > 0 {
      ForwardNoWrap(0, i, n);
    }
  }

  /** Moving back the same number of steps undoes a move forward. */
  lemma {:induction false} BackwardUndoesForward(i: nat, steps: nat, n: nat)
    requires i < n
    ensures Backward(Forward(i, steps, n), steps, n) == i
    decreases steps
  {
    if steps > 0 {
      var j := Forward(i, steps - 1, n);
      BackwardAfterStep(j, steps - 1, n);
      BackwardUndoesForward(i, steps - 1, n);
    }
  }

  lemma {:induction false} BackwardAfterStep(j: nat, steps: nat, n: nat)
    requires j < n
    ensures Backward(Succ(j, n), steps + 1, n) == Backward(j, steps, n)
    decreases steps
  {
    if steps > 0 {
      BackwardAfterStep(j, steps - 1, n);
    }
  }

  /** Going round once along `previous` returns to the start as well. */
  lemma BackwardFullCycle(i: nat, n: nat)
    requires i < n
    ensures Backward(i, n, n) == i
  {
    ForwardFullCycle(i, n);
    BackwardUndoesForward(i, n, n);
  }
}
