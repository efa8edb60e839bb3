/**
 * The older recursive trie: a node is a branch with a child per key and an
 * optional value of its own, a compressed run of keys leading to a further
 * node, a leaf, or empty.  `get` is a recursive lookup; `insert` rewrites
 * the node in place, which is modelled by returning the rewritten node
 * together with the value it replaced.
 */
module PrefixTree {
  import opened Optional

  datatype HashTrie<K(==), V> =
    | Branch(children: map<K, HashTrie<K, V>>, ownValue: Option<V>)
    | PathCompressed(path: seq<K>, next: HashTrie<K, V>)
    | Leaf(value: V)
    | Empty

  /** A lookup either yields its answer or panics on an out-of-range slice. */
  datatype Outcome<T> = Done(result: T) | Panics

  /**
   * `Trie::new`: a branch without children or value, so every key is looked
   * up without a value and every key is inserted where `get` will look.
   */
  function New<K(==, !new), V>(): (r: HashTrie<K, V>)
    ensures forall key :: Get(r, key) == Done(None) && Routable(r, key)
  {
    Branch(map[], None)
  }

  /**
   * `get`: a branch consumes one key per level (its own value answers the
   * empty key); a compressed node consumes its whole stored path, and slicing
   * a shorter key to that length panics, so only a trie with a compressed
   * node can make `get` panic.
   */
  function Get<K(==), V>(t: HashTrie<K, V>, key: seq<K>): (r: Outcome<Option<V>>)
    ensures Uncompressed(t) ==> r.Done?
    decreases t
  {
    match t
    case Branch(children, ownValue) =>
      if |key| > 0 then
        if key[0] in children then Get(children[key[0]], key[1..]) else Done(None)
      else Done(ownValue)
    case PathCompressed(path, next) =>
      if |key| < |path| then Panics
      else if key[..|path|] == path then Get(next, key[|path|..])
      else Done(None)
    case Leaf(value) =>
      Done(if key == [] then Some(value) else None)
    case Empty =>
      Done(None)
  }

  /** No compressed node occurs anywhere in the trie. */
  predicate Uncompressed<K(==), V>(t: HashTrie<K, V>)
    decreases t
  {
    match t
    case Branch(children, _) => forall k :: k in children ==> Uncompressed(children[k])
    case PathCompressed(_, _) => false
    case _ => true
  }

  /** Orders the node kinds for the termination of `Insert`. */
  function Rank<K(==), V>(t: HashTrie<K, V>): nat
  {
    match t
    case PathCompressed(_, _) => 2
    case Leaf(_) => 1
    case _ => 0
  }

  /**
   * `insert`, returning the rewritten node and the value it displaced.  A
   * leaf first turns into a branch that keeps its value and the insertion is
   * retried there.  In the compressed case the stored path shadows the key,
   * so the insertion always continues into `next` with the empty key.
   * Insertion never empties a node: a branch stays a branch, a leaf becomes
   * one, a compressed node keeps its stored path, and an empty node becomes a
   * leaf.
   */
  function Insert<K(==), V>(t: HashTrie<K, V>, path: seq<K>, newVal: V): (r: (HashTrie<K, V>, Option<V>))
    ensures t.Branch? || t.Leaf? ==> r.0.Branch?
    ensures t.PathCompressed? ==> r.0.PathCompressed? && r.0.path == t.path
    ensures r.0 != Empty
    decreases |path|, Rank(t), t
  {
    match t
    case Branch(children, ownValue) =>
      if |path| > 0 then
        var k := path[0];
        if k in children then
          var (child, displaced) := Insert(children[k], path[1..], newVal);
          (Branch(children[k := child], ownValue), displaced)
        else if |path| == 1 then
          (Branch(children[k := Leaf(newVal)], ownValue), None)
        else
          (Branch(children[k := PathCompressed(path[1..], Leaf(newVal))], ownValue), None)
      else
        (Branch(children, Some(newVal)), ownValue)
    case PathCompressed(stored, next) =>
      var (next', displaced) := Insert(next, stored[|stored|..], newVal);
      (PathCompressed(stored, next'), displaced)
    case Leaf(value) =>
      Insert(Branch(map[], Some(value)), path, newVal)
    case Empty =>
      (Leaf(newVal), None)
  }

  /**
   * The keys for which `insert` stores the value where `get` looks for it:
   * an empty node only for the empty key, and a compressed node only for
   * exactly its stored path (followed by the empty key below it).
   */
  predicate Routable<K(==), V>(t: HashTrie<K, V>, key: seq<K>)
    decreases t
  {
    match t
    case Branch(children, _) =>
      key == [] || key[0] !in children || Routable(children[key[0]], key[1..])
    case PathCompressed(path, next) =>
      key == path && Routable(next, [])
    case Leaf(_) => true
    case Empty => key == []
  }

  // ---------------------------------------------------------------------
  // Properties
  // ---------------------------------------------------------------------

  /** On a routable key, `get` after `insert` yields the inserted value. */
  lemma {:induction false} InsertThenGet<K, V>(t: HashTrie<K, V>, key: seq<K>, v: V)
    requires Routable(t, key)
    ensures Get(Insert(t, key, v).0, key) == Done(Some(v))
    decreases |key|, Rank(t), t
  {
    match t
    case Branch(children, _) =>
      if |key| > 0 && key[0] in children {
        InsertThenGet(children[key[0]], key[1..], v);
      } else if |key| > 1 {
        var rest := key[1..];
        assert rest[..|rest|] == rest && rest[|rest|..] == [];
        assert Get(PathCompressed(rest, Leaf(v)), rest) == Done(Some(v));
      }
    case PathCompressed(path, next) =>
      InsertThenGet(next, [], v);
      assert key[..|path|] == path && key[|path|..] == [];
    case Leaf(value) =>
      InsertThenGet(Branch(map[], Some(value)), key, v);
    case Empty =>
  }

  /** On a routable key, `insert` returns the value `get` found there before. */
  lemma {:induction false} InsertReturnsPrevious<K, V>(t: HashTrie<K, V>, key: seq<K>, v: V)
    requires Routable(t, key)
    ensures Get(t, key) == Done(Insert(t, key, v).1)
    decreases |key|, Rank(t), t
  {
    match t
    case Branch(children, _) =>
      if |key| > 0 && key[0] in children {
        InsertReturnsPrevious(children[key[0]], key[1..], v);
      }
    case PathCompressed(path, next) =>
      InsertReturnsPrevious(next, [], v);
      assert key[..|path|] == path && key[|path|..] == [];
    case Leaf(value) =>
      InsertReturnsPrevious(Branch(map[], Some(value)), key, v);
    case Empty =>
  }

  /**
   * Inserting a routable key changes no other key's lookup, except that a
   * shorter key may now run into the compressed node the insertion created
   * and panic.
   */
  lemma {:induction false} InsertKeepsOtherKeys<K, V>(t: HashTrie<K, V>, key: seq<K>, v: V, other: seq<K>)
    requires Routable(t, key)
    requires other != key
    ensures |other| >= |key| ==> Get(Insert(t, key, v).0, other) == Get(t, other)
    ensures Get(Insert(t, key, v).0, other) == Get(t, other) || Get(Insert(t, key, v).0, other) == Panics
    decreases |key|, Rank(t), t
  {
    match t
    case Branch(children, ownValue) =>
      if |key| > 0 && other != [] && other[0] == key[0] {
        var k := key[0];
        assert other[1..] != key[1..] by {
          assert other == [k] + other[1..] && key == [k] + key[1..];
        }
        if k in children {
          InsertKeepsOtherKeys(children[k], key[1..], v, other[1..]);
        } else if |key| > 1 {
          var rest, o := key[1..], other[1..];
          if |o| >= |rest| && o[..|rest|] == rest {
            assert o[|rest|..] != [] by {
              assert o != rest;
              assert o == o[..|rest|] + o[|rest|..];
            }
            assert Get(PathCompressed(rest, Leaf(v)), o) == Done(None);
          }
        }
      }
    case PathCompressed(path, next) =>
      assert path[|path|..] == [];
      if |other| >= |path| && other[..|path|] == path {
        assert other[|path|..] != [] by {
          assert other != key;
          assert other == other[..|path|] + other[|path|..];
        }
        InsertKeepsOtherKeys(next, [], v, other[|path|..]);
      }
    case Leaf(value) =>
      InsertKeepsOtherKeys(Branch(map[], Some(value)), key, v, other);
    case Empty =>
  }

  /**
   * From a fresh trie, two inserted keys that start differently are both
   * retrievable afterwards.
   */
  lemma DisjointInsertsBothRetrievable<K(!new), V>(a: seq<K>, b: seq<K>, va: V, vb: V)
    requires |a| > 0 && |b| > 0 && a[0] != b[0]
    ensures var t1 := Insert(New<K, V>(), a, va).0;
      var t2 := Insert(t1, b, vb).0;
      Get(t2, a) == Done(Some(va)) && Get(t2, b) == Done(Some(vb))
  {
    var t1 := Insert(New<K, V>(), a, va).0;
    InsertThenGet(New<K, V>(), a, va);
    assert t1.Branch? && t1.children.Keys == {a[0]};
    assert Routable(t1, b);
    InsertThenGet(t1, b, vb);
  }

  /**
   * A leaf turned into a branch keeps its value, so after inserting a longer
   * key both the empty key and the new key have values: this trie is not
   * prefix-free.
   */
  lemma LeafKeepsValueBelowNewKey<K, V>(w: V, key: seq<K>, v: V)
    requires key != []
    ensures Get(Insert(Leaf(w), key, v).0, []) == Done(Some(w))
    ensures Get(Insert(Leaf(w), key, v).0, key) == Done(Some(v))
  {
    InsertThenGet(Leaf(w), key, v);
  }

  /** In a compressed node the key is ignored: any two keys insert alike. */
  lemma CompressedInsertIgnoresKey<K, V>(path: seq<K>, next: HashTrie<K, V>, a: seq<K>, b: seq<K>, v: V)
    ensures Insert(PathCompressed(path, next), a, v) == Insert(PathCompressed(path, next), b, v)
  {
  }

  /**
   * Inserting [0, 2] after [0, 1, 1] lands on the compressed node and
   * overwrites the value of [0, 1, 1], while looking up [0, 2] panics.
   */
  lemma CompressedInsertOverwritesOtherKey()
    ensures var t1 := Insert(New<int, int>(), [0, 1, 1], 10).0;
      var (t2, displaced) := Insert(t1, [0, 2], 20);
      displaced == Some(10) && Get(t2, [0, 1, 1]) == Done(Some(20)) && Get(t2, [0, 2]) == Panics
  {
    var t1 := Insert(New<int, int>(), [0, 1, 1], 10).0;
    assert t1 == Branch(map[0 := PathCompressed([1, 1], Leaf(10))], None);
    assert Insert<int, int>(Leaf(10), [], 20) == (Branch(map[], Some(20)), Some(10));
    assert Insert<int, int>(PathCompressed([1, 1], Leaf(10)), [2], 20) == (PathCompressed([1, 1], Branch(map[], Some(20))), Some(10));
    var (t2, displaced) := Insert(t1, [0, 2], 20);
    assert [0, 2][1..] == [2];
    assert t2 == Branch(map[0 := PathCompressed([1, 1], Branch(map[], Some(20)))], None);
    assert displaced == Some(10);
    assert [0, 1, 1][1..] == [1, 1] && [1, 1][..2] == [1, 1] && [1, 1][2..] == [];
    assert Get(t2, [0, 1, 1]) == Done(Some(20));
    assert Get(t2, [0, 2]) == Panics;
  }

  /**
   * A key shorter than a compressed path makes `get` panic: after inserting
   * [0, 1, 1] into a fresh trie, looking up [0, 1] panics.
   */
  lemma ShorterKeyPanics()
    ensures Get(Insert(New<int, int>(), [0, 1, 1], 10).0, [0, 1]) == Panics
  {
    var t1 := Insert(New<int, int>(), [0, 1, 1], 10).0;
    assert t1 == Branch(map[0 := PathCompressed([1, 1], Leaf(10))], None);
    assert [0, 1][1..] == [1];
  }
}
