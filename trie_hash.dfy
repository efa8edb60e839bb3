/**
 * The arena trie of `src/trie/hash.rs`.  A trie is either Trivial, when the
 * empty path itself holds a value, or Standard: one flat map from an edge
 * (the id of the node it leaves, the key it follows) to the node it reaches,
 * a Branch with an id of its own or a Leaf with a value, plus the next
 * unused node id.  The root has id 0.  A view is the edge leading to the
 * current node, or None at the root.
 *
 * The pure functions below are the specification; the class `HashTrie`
 * performs the same operations by updating its one field in place.
 */
module TrieHash {
  import opened Optional
  import Trie

  /** An edge: the id of the node it leaves and the key it follows. */
  type Edge<K> = (nat, K)

  datatype Node<V> = Branch(id: nat) | Leaf(value: V)

  datatype Repr<K(==), V> =
    | Trivial(value: V)
    | Standard(edges: map<Edge<K>, Node<V>>, nextId: nat)

  /** A view of a node: the edge leading to it, or None for the root. */
  type View<K> = Option<Edge<K>>

  /** `HashTrie::new`: no edges, and ids start at 1 since 0 is the root. */
  function New<K(==), V>(): Repr<K, V>
  {
    Standard(map[], 1)
  }

  // ---------------------------------------------------------------------
  // Read side
  // ---------------------------------------------------------------------

  /**
   * `HashTrieView::value`: the root of a Trivial trie, or an edge of a
   * Standard trie that holds a Leaf.  The root has a value exactly when the
   * trie is Trivial, and a view with a value has no children.
   */
  function Value<K(==), V>(s: Repr<K, V>, view: View<K>): (r: Option<V>)
    ensures view.None? ==> (r.Some? <==> s.Trivial?)
    ensures r.Some? ==> !Passable(s, view)
  {
    match s
    case Trivial(value) =>
      if view.None? then Some(value) else None
    case Standard(edges, _) =>
      if view.Some? && view.value in edges && edges[view.value].Leaf? then Some(edges[view.value].value)
      else None
  }

  /**
   * `HashTrieView::descend`: on a Standard trie, from the root the key is
   * paired with node 0, and from an edge holding a Branch with that branch's
   * id; any other view has no children.  The child's edge need not exist:
   * from the root descent always succeeds, so the view returned may show a
   * child that is absent (see `DescendReachesAbsentChild`).
   */
  function Descend<K(==), V>(s: Repr<K, V>, view: View<K>, key: K): (r: Option<View<K>>)
    ensures r.Some? ==> s.Standard? && r.value.Some? && r.value.value.1 == key
    ensures s.Standard? && view.None? ==> r == Some(Some((0, key)))
  {
    match s
    case Trivial(_) => None
    case Standard(edges, _) =>
      if view.None? then Some(Some((0, key)))
      else if view.value in edges && edges[view.value].Branch? then Some(Some((edges[view.value].id, key)))
      else None
  }

  /** The view reached from the root along `path` (the default `get_view` walk). */
  function ViewAt<K(==), V>(s: Repr<K, V>, path: seq<K>): Option<View<K>>
    decreases |path|
  {
    if path == [] then Some(None)
    else match ViewAt(s, path[..|path| - 1])
      case None => None
      case Some(w) => Descend(s, w, path[|path| - 1])
  }

  /**
   * `HashTrie::get_view`: the same walk, except that the empty path gives
   * None; a view found is an edge of a Standard trie, along the last key.
   */
  function GetViewOf<K(==), V>(s: Repr<K, V>, path: seq<K>): (r: Option<View<K>>)
    ensures r.Some? ==> path != [] && s.Standard? && r.value.Some? && r.value.value.1 == path[|path| - 1]
  {
    if path == [] then None else ViewAt(s, path)
  }

  /**
   * `HashTrie::get`: the value at the view `get_view` finds; a value found
   * is the Leaf stored on the edge a non-empty path reaches.
   */
  function Lookup<K(==), V>(s: Repr<K, V>, path: seq<K>): (r: Option<V>)
    ensures r.Some? ==> path != [] && NodeAt(s, path) == Some(Leaf(r.value))
  {
    match GetViewOf(s, path)
    case None => None
    case Some(w) => Value(s, w)
  }

  /**
   * The default `Trie::get` of `src/trie/mod.rs`, which starts at the root
   * view: it agrees with `HashTrie::get` on every non-empty path, and on the
   * empty path it reads the root, which holds a value exactly in a Trivial
   * trie.
   */
  function DefaultLookup<K(==), V>(s: Repr<K, V>, path: seq<K>): (r: Option<V>)
    ensures path != [] ==> r == Lookup(s, path)
    ensures path == [] ==> (r.Some? <==> s.Trivial?)
  {
    match ViewAt(s, path)
    case None => None
    case Some(w) => Value(s, w)
  }

  /** The node stored on the edge that `path` reaches, if any. */
  function NodeAt<K(==), V>(s: Repr<K, V>, path: seq<K>): Option<Node<V>>
  {
    match s
    case Trivial(_) => None
    case Standard(edges, _) =>
      match ViewAt(s, path)
      case Some(Some(e)) => if e in edges then Some(edges[e]) else None
      case _ => None
  }

  /** The edge `path` reaches holds a Branch. */
  predicate IsBranchAt<K(==), V>(s: Repr<K, V>, path: seq<K>)
  {
    NodeAt(s, path).Some? && NodeAt(s, path).value.Branch?
  }

  // ---------------------------------------------------------------------
  // Mutating steps, as functions from the old state to the new one
  // ---------------------------------------------------------------------

  /**
   * `HashTrieViewMut::set_value`.  At the root of a Standard trie the trie
   * becomes Trivial, but only when its map is empty; at an edge that is
   * absent or holds a Leaf a Leaf with the new value is stored; anything
   * else (a Branch, or any view of a Trivial trie) returns false.  On
   * success the view holds the new value; on failure nothing changes.
   */
  function SetValueStep<K(==), V>(s: Repr<K, V>, view: View<K>, v: V): (r: (Repr<K, V>, bool))
    ensures r.1 ==> Value(r.0, view) == Some(v)
    ensures !r.1 ==> r.0 == s
  {
    match s
    case Trivial(_) => (s, false)
    case Standard(edges, nextId) =>
      match view
      case None =>
        if |edges| == 0 then (Trivial(v), true) else (s, false)
      case Some(e) =>
        if e !in edges || edges[e].Leaf? then (Standard(edges[e := Leaf(v)], nextId), true)
        else (s, false)
  }

  /**
   * `HashTrieViewMut::descend_or_add`.  From the root the key is paired with
   * node 0 whatever the trie.  From an edge of a Standard trie holding a
   * Branch the key is paired with its id; at an edge that is absent or holds
   * a Leaf a Branch with a fresh id is stored there first.  From an edge of
   * a Trivial trie the result is None.  A Trivial trie is never changed; on
   * a Standard trie the view returned is the one `descend` finds afterwards.
   */
  function DescendOrAddStep<K(==), V>(s: Repr<K, V>, view: View<K>, key: K): (r: (Repr<K, V>, Option<View<K>>))
    ensures s.Trivial? ==> r.0 == s
    ensures s.Standard? ==> r.0.Standard? && r.1.Some? && Descend(r.0, view, key) == r.1
  {
    match view
    case None => (s, Some(Some((0, key))))
    case Some(e) =>
      match s
      case Trivial(_) => (s, None)
      case Standard(edges, nextId) =>
        if e in edges && edges[e].Branch? then (s, Some(Some((edges[e].id, key))))
        else (Standard(edges[e := Branch(nextId)], nextId + 1), Some(Some((nextId, key))))
  }

  /**
   * `insert` from `view` on: `descend_or_add` along `rest`, returning false
   * at the first None, then `set_value`.  A Trivial trie refuses every
   * insertion; on a Standard trie no edge is ever removed and at most one id
   * is allocated per key.
   */
  function InsertFrom<K(==), V>(s: Repr<K, V>, view: View<K>, rest: seq<K>, v: V): (r: (Repr<K, V>, bool))
    ensures s.Trivial? ==> r == (s, false)
    ensures r.0.Standard? ==> s.Standard? && s.nextId <= r.0.nextId <= s.nextId + |rest|
    decreases |rest|
  {
    if rest == [] then SetValueStep(s, view, v)
    else
      var (s1, next) := DescendOrAddStep(s, view, rest[0]);
      match next
      case None => (s1, false)
      case Some(w) => InsertFrom(s1, w, rest[1..], v)
  }

  // ---------------------------------------------------------------------
  // The arena invariant
  // ---------------------------------------------------------------------

  /** Some edge holds a Branch with this id. */
  ghost predicate IsBranchId<K, V>(edges: map<Edge<K>, Node<V>>, id: nat)
  {
    exists x :: x in edges && edges[x].Branch? && edges[x].id == id
  }

  /**
   * Branch ids lie in [1, nextId) and no two edges hold the same branch id;
   * every edge leaves the root or an existing branch.
   */
  ghost predicate ValidRepr<K, V>(s: Repr<K, V>)
  {
    s.Standard? ==>
      && s.nextId >= 1
      && (forall x :: x in s.edges && s.edges[x].Branch? ==> 1 <= s.edges[x].id < s.nextId)
      && (forall x, y ::
            (x in s.edges && y in s.edges && s.edges[x].Branch? && s.edges[y].Branch? && s.edges[x].id == s.edges[y].id)
            ==> x == y)
      && (forall x :: x in s.edges ==> x.0 == 0 || IsBranchId(s.edges, x.0))
  }

  /** A view leaves the root or an existing branch. */
  ghost predicate ViewOk<K, V>(s: Repr<K, V>, view: View<K>)
  {
    s.Standard? && view.Some? ==> view.value.0 == 0 || IsBranchId(s.edges, view.value.0)
  }

  /** Descending from the viewed node is possible. */
  predicate Passable<K(==), V>(s: Repr<K, V>, view: View<K>)
  {
    s.Standard? && (view.None? || (view.value in s.edges && s.edges[view.value].Branch?))
  }

  /** `s1` differs from `s` at most on edge `e`. */
  ghost predicate AgreeOffEdge<K, V>(s: Repr<K, V>, s1: Repr<K, V>, e: Edge<K>)
  {
    && s.Standard? && s1.Standard?
    && (forall x :: x in s.edges && x != e ==> x in s1.edges && s1.edges[x] == s.edges[x])
    && (forall x :: x in s1.edges && x != e ==> x in s.edges)
  }

  /** In a valid trie every edge leaves a node whose id is below `nextId`. */
  lemma OriginBelowNext<K, V>(s: Repr<K, V>, o: nat)
    requires ValidRepr(s) && s.Standard?
    requires o == 0 || IsBranchId(s.edges, o)
    ensures o < s.nextId
  {
    if o != 0 {
      var x :| x in s.edges && s.edges[x].Branch? && s.edges[x].id == o;
    }
  }

  /** Every view the walk reaches leaves the root or an existing branch. */
  lemma ViewAtOk<K, V>(s: Repr<K, V>, path: seq<K>)
    requires ViewAt(s, path).Some?
    ensures ViewOk(s, ViewAt(s, path).value)
  {
    if path != [] && s.Standard? {
      var w := ViewAt(s, path[..|path| - 1]).value;
      if w.Some? {
        assert s.edges[w.value].Branch?;
      }
    }
  }

  lemma NewValid<K, V>()
    ensures ValidRepr(New<K, V>())
  {
  }

  /** `set_value` keeps the invariant at any view that leaves the root or a branch. */
  lemma SetValueKeepsValid<K, V>(s: Repr<K, V>, view: View<K>, v: V)
    requires ValidRepr(s) && ViewOk(s, view)
    ensures ValidRepr(SetValueStep(s, view, v).0)
  {
    if s.Standard? && view.Some? {
      var e := view.value;
      var s1 := SetValueStep(s, view, v).0;
      if s1 != s {
        forall x | x in s1.edges
          ensures x.0 == 0 || IsBranchId(s1.edges, x.0)
        {
          if x.0 != 0 {
            assert IsBranchId(s.edges, x.0);
            var y :| y in s.edges && s.edges[y].Branch? && s.edges[y].id == x.0;
            assert y in s1.edges && s1.edges[y] == s.edges[y];
          }
        }
      }
    }
  }

  /**
   * `descend_or_add` keeps the invariant, and the view it returns again
   * leaves the root or a branch.
   */
  lemma DescendOrAddKeepsValid<K, V>(s: Repr<K, V>, view: View<K>, key: K)
    requires ValidRepr(s) && ViewOk(s, view)
    ensures var (s1, next) := DescendOrAddStep(s, view, key);
      ValidRepr(s1) && (next.Some? ==> ViewOk(s1, next.value))
  {
    var (s1, next) := DescendOrAddStep(s, view, key);
    if s.Standard? && view.Some? {
      var e := view.value;
      if e in s.edges && s.edges[e].Branch? {
        assert IsBranchId(s.edges, s.edges[e].id);
      } else {
        OriginBelowNext(s, e.0);
        forall x | x in s1.edges
          ensures x.0 == 0 || IsBranchId(s1.edges, x.0)
        {
          if x.0 != 0 {
            assert IsBranchId(s.edges, x.0);
            var y :| y in s.edges && s.edges[y].Branch? && s.edges[y].id == x.0;
            assert y in s1.edges && s1.edges[y] == s.edges[y];
          }
        }
        assert s1.edges[e] == Branch(s.nextId);
        assert IsBranchId(s1.edges, s.nextId);
      }
    }
  }

  // ---------------------------------------------------------------------
  // The walk on a valid trie
  // ---------------------------------------------------------------------

  /** Only the empty path reaches the root view. */
  lemma ViewAtRoot<K, V>(s: Repr<K, V>, path: seq<K>)
    ensures ViewAt(s, path) == Some(None) <==> path == []
  {
  }

  /** In a valid trie two different paths never reach the same view. */
  lemma {:induction false} ViewAtDistinct<K, V>(s: Repr<K, V>, p: seq<K>, q: seq<K>)
    requires ValidRepr(s)
    requires p != q
    ensures ViewAt(s, p).None? || ViewAt(s, p) != ViewAt(s, q)
    decreases |p|
  {
    if p == [] {
      ViewAtRoot(s, q);
    } else if q == [] {
      ViewAtRoot(s, p);
    } else {
      var p', q' := p[..|p| - 1], q[..|q| - 1];
      if p[|p| - 1] == q[|q| - 1] {
        assert p == p' + [p[|p| - 1]] && q == q' + [q[|q| - 1]];
        ViewAtDistinct(s, p', q');
        if p' == [] {
          ViewAtRoot(s, q');
        }
        if q' == [] {
          ViewAtRoot(s, p');
        }
      }
    }
  }

  /** Every node strictly above a reachable view can be descended from. */
  lemma {:induction false} ViewAtPrefix<K, V>(s: Repr<K, V>, p: seq<K>, q: seq<K>)
    requires ViewAt(s, q).Some?
    requires p < q
    ensures ViewAt(s, p).Some? && Passable(s, ViewAt(s, p).value)
    decreases |q|
  {
    var q' := q[..|q| - 1];
    if p != q' {
      assert p < q';
      ViewAtPrefix(s, p, q');
    }
  }

  /** Below a view that cannot be descended from, every longer path fails. */
  lemma {:induction false} ViewAtDeadEnd<K, V>(s: Repr<K, V>, d: seq<K>, q: seq<K>)
    requires ViewAt(s, d).Some? && !Passable(s, ViewAt(s, d).value)
    requires d < q
    ensures ViewAt(s, q).None?
    decreases |q|
  {
    var q' := q[..|q| - 1];
    if d != q' {
      assert d < q';
      ViewAtDeadEnd(s, d, q');
    }
  }

  /** Once the walk has failed, every longer path fails too. */
  lemma {:induction false} ViewAtStaysFailed<K, V>(s: Repr<K, V>, d: seq<K>, q: seq<K>)
    requires ViewAt(s, d).None?
    requires d <= q
    ensures ViewAt(s, q).None?
    decreases |q|
  {
    if q != d {
      var q' := q[..|q| - 1];
      assert d <= q';
      ViewAtStaysFailed(s, d, q');
    }
  }

  /**
   * Changing the edge `e` leaves the walk alone along any path that does
   * not pass through `e` on the way.
   */
  lemma {:induction false} ViewAtFrame<K, V>(s: Repr<K, V>, s1: Repr<K, V>, e: Edge<K>, q: seq<K>)
    requires AgreeOffEdge(s, s1, e)
    requires forall j :: 0 <= j < |q| ==> ViewAt(s, q[..j]) != Some(Some(e))
    ensures ViewAt(s1, q) == ViewAt(s, q)
    decreases |q|
  {
    if q != [] {
      var q' := q[..|q| - 1];
      forall j | 0 <= j < |q'|
        ensures ViewAt(s, q'[..j]) != Some(Some(e))
      {
        assert q'[..j] == q[..j];
      }
      ViewAtFrame(s, s1, e, q');
      assert q[..|q| - 1] == q';
    }
  }

  /**
   * If `d` reaches edge `e` in a valid trie, changing `e` leaves the walk
   * alone along every path that does not extend `d` strictly, and the node
   * found along every path other than `d` that does not extend it.
   */
  lemma ViewAtOffEdge<K, V>(s: Repr<K, V>, s1: Repr<K, V>, e: Edge<K>, d: seq<K>, q: seq<K>)
    requires ValidRepr(s) && AgreeOffEdge(s, s1, e)
    requires ViewAt(s, d) == Some(Some(e))
    requires !(d < q)
    ensures ViewAt(s1, q) == ViewAt(s, q)
    ensures q != d ==> NodeAt(s1, q) == NodeAt(s, q)
  {
    forall j | 0 <= j < |q|
      ensures ViewAt(s, q[..j]) != Some(Some(e))
    {
      assert q[..j] != d;
      ViewAtDistinct(s, q[..j], d);
    }
    ViewAtFrame(s, s1, e, q);
    if q != d {
      ViewAtDistinct(s, q, d);
    }
  }

  /** In a valid trie no edge leaves the node `nextId`, which does not exist yet. */
  lemma FreshIdHasNoEdges<K, V>(s: Repr<K, V>, key: K)
    requires ValidRepr(s) && s.Standard?
    ensures (s.nextId, key) !in s.edges
  {
    forall x | x in s.edges
      ensures x.0 < s.nextId
    {
      OriginBelowNext(s, x.0);
    }
  }

  /**
   * When `set_value` stores a Leaf on the edge `e` that `d` reaches (absent
   * or holding a Leaf before), the node found along every other path stays.
   */
  lemma SetLeafKeepsOtherNodes<K, V>(s: Repr<K, V>, d: seq<K>, e: Edge<K>, v: V, q: seq<K>)
    requires ValidRepr(s) && s.Standard?
    requires ViewAt(s, d) == Some(Some(e))
    requires !(e in s.edges && s.edges[e].Branch?)
    requires q != d
    ensures NodeAt(Standard(s.edges[e := Leaf(v)], s.nextId), q) == NodeAt(s, q)
  {
    var s1 := Standard(s.edges[e := Leaf(v)], s.nextId);
    assert AgreeOffEdge(s, s1, e);
    if d < q {
      ViewAtDeadEnd(s, d, q);
      ViewAtOffEdge(s, s1, e, d, d);
      ViewAtDeadEnd(s1, d, q);
    } else {
      ViewAtOffEdge(s, s1, e, d, q);
    }
  }

  /**
   * A fresh Branch stored on the edge `e` that `d` reaches has no children:
   * every path below `d` reaches no node, before or after.
   */
  lemma CreatedBranchHasNoChildren<K, V>(s: Repr<K, V>, d: seq<K>, e: Edge<K>, q: seq<K>)
    requires ValidRepr(s) && s.Standard?
    requires ViewAt(s, d) == Some(Some(e))
    requires !(e in s.edges && s.edges[e].Branch?)
    requires d < q
    ensures NodeAt(Standard(s.edges[e := Branch(s.nextId)], s.nextId + 1), q) == None
    ensures NodeAt(s, q) == None
  {
    var s1 := Standard(s.edges[e := Branch(s.nextId)], s.nextId + 1);
    ViewAtDeadEnd(s, d, q);
    assert ViewAt(s1, d) == Some(Some(e)) by {
      assert AgreeOffEdge(s, s1, e);
      ViewAtOffEdge(s, s1, e, d, d);
    }
    var k := q[|d|];
    var d' := q[..|d| + 1];
    assert d'[..|d'| - 1] == d && d'[|d'| - 1] == k;
    assert ViewAt(s1, d') == Some(Some((s.nextId, k)));
    assert (s.nextId, k) !in s1.edges by {
      ViewAtOk(s, d);
      OriginBelowNext(s, e.0);
      FreshIdHasNoEdges(s, k);
    }
    if d' != q {
      assert d' < q;
      ViewAtDeadEnd(s1, d', q);
    }
  }

  /**
   * When `descend_or_add` stores a fresh Branch on the edge `e` that `d`
   * reaches (absent or holding a Leaf before), the node found along every
   * other path stays: the paths through `e` now reach edges that do not
   * exist.
   */
  lemma CreateKeepsOtherNodes<K, V>(s: Repr<K, V>, d: seq<K>, e: Edge<K>, q: seq<K>)
    requires ValidRepr(s) && s.Standard?
    requires ViewAt(s, d) == Some(Some(e))
    requires !(e in s.edges && s.edges[e].Branch?)
    requires q != d
    ensures NodeAt(Standard(s.edges[e := Branch(s.nextId)], s.nextId + 1), q) == NodeAt(s, q)
  {
    if d < q {
      CreatedBranchHasNoChildren(s, d, e, q);
    } else {
      var s1 := Standard(s.edges[e := Branch(s.nextId)], s.nextId + 1);
      assert AgreeOffEdge(s, s1, e);
      ViewAtOffEdge(s, s1, e, d, q);
    }
  }

  // ---------------------------------------------------------------------
  // What insert does
  // ---------------------------------------------------------------------

  /**
   * The outcome of `insert(p, v)` taking `s` to `s'` with result `ok`:
   * the invariant holds afterwards; it succeeds exactly on a Standard trie
   * where the empty path meets an empty map, or a non-empty path does not
   * reach a Branch; a failure changes nothing; a success stores `v` at `p`
   * (making the trie Trivial for the empty path) and leaves Branches on
   * every shorter prefix of `p`; no path other than a prefix of `p` sees
   * its node change.
   */
  ghost predicate InsertSpec<K(!new), V>(s: Repr<K, V>, p: seq<K>, v: V, s': Repr<K, V>, ok: bool)
  {
    && ValidRepr(s')
    && (ok <==> s.Standard? && (if p == [] then |s.edges| == 0 else !IsBranchAt(s, p)))
    && (!ok ==> s' == s)
    && (ok && p == [] ==> s' == Trivial(v))
    && (ok && p != [] ==> NodeAt(s', p) == Some(Leaf(v)))
    && (forall q :: !(q <= p) ==> NodeAt(s', q) == NodeAt(s, q))
    && (ok ==> forall q :: q < p && q != [] ==> IsBranchAt(s', q))
  }

  /**
   * Storing a Leaf on the edge `e` that `d` reaches changes no node along a
   * path that is not a prefix of `d`, and leaves Branches on the non-empty
   * proper prefixes of `d`.
   */
  lemma SetLeafFrame<K(!new), V>(s: Repr<K, V>, d: seq<K>, e: Edge<K>, v: V, s': Repr<K, V>)
    requires ValidRepr(s) && s.Standard?
    requires ViewAt(s, d) == Some(Some(e))
    requires !(e in s.edges && s.edges[e].Branch?)
    requires s' == Standard(s.edges[e := Leaf(v)], s.nextId)
    ensures forall q :: !(q <= d) ==> NodeAt(s', q) == NodeAt(s, q)
    ensures forall q :: q < d && q != [] ==> IsBranchAt(s', q)
  {
    forall q | !(q <= d)
      ensures NodeAt(s', q) == NodeAt(s, q)
    {
      SetLeafKeepsOtherNodes(s, d, e, v, q);
    }
    forall q | q < d && q != []
      ensures IsBranchAt(s', q)
    {
      ViewAtPrefix(s, q, d);
      ViewAtRoot(s, q);
      SetLeafKeepsOtherNodes(s, d, e, v, q);
    }
  }

  /** `set_value` at the view `d` reaches does what `InsertSpec` says for `d`. */
  lemma SetValueSpec<K(!new), V>(s: Repr<K, V>, view: View<K>, d: seq<K>, v: V)
    requires ValidRepr(s) && s.Standard?
    requires ViewAt(s, d) == Some(view)
    ensures InsertSpec(s, d, v, SetValueStep(s, view, v).0, SetValueStep(s, view, v).1)
  {
    var (s', ok) := SetValueStep(s, view, v);
    ViewAtOk(s, d);
    ViewAtRoot(s, d);
    match view
    case None =>
    case Some(e) =>
      if !(e in s.edges && s.edges[e].Branch?) {
        SetValueKeepsValid(s, view, v);
        assert NodeAt(s', d) == Some(Leaf(v)) by {
          assert AgreeOffEdge(s, s', e);
          ViewAtOffEdge(s, s', e, d, d);
        }
        SetLeafFrame(s, d, e, v, s');
      }
  }

  /**
   * When `descend_or_add` stores a fresh Branch on the edge `e` that `d`
   * reaches, the rest of the insertion of `p`, which extends `d`, meets the
   * outcome `InsertSpec` promises for the original trie.
   */
  lemma CreateStepSpec<K(!new), V>(s: Repr<K, V>, d: seq<K>, e: Edge<K>, p: seq<K>, v: V, s': Repr<K, V>, ok: bool)
    requires ValidRepr(s) && s.Standard?
    requires ViewAt(s, d) == Some(Some(e))
    requires !(e in s.edges && s.edges[e].Branch?)
    requires d < p
    requires InsertSpec(Standard(s.edges[e := Branch(s.nextId)], s.nextId + 1), p, v, s', ok)
    ensures InsertSpec(s, p, v, s', ok)
  {
    ViewAtDeadEnd(s, d, p);
    CreateKeepsOtherNodes(s, d, e, p);
    forall q | !(q <= p)
      ensures NodeAt(s', q) == NodeAt(s, q)
    {
      CreateKeepsOtherNodes(s, d, e, q);
    }
  }

  /**
   * On a valid Standard trie `descend_or_add` at the view `done` reaches
   * always succeeds, keeps the invariant, and returns the view `done + [k]`
   * reaches afterwards.
   */
  lemma DescendOrAddStepView<K, V>(s: Repr<K, V>, view: View<K>, done: seq<K>, k: K)
    requires ValidRepr(s) && s.Standard?
    requires ViewAt(s, done) == Some(view)
    ensures var (s1, next) := DescendOrAddStep(s, view, k);
      ValidRepr(s1) && s1.Standard? && ViewAt(s1, done + [k]) == next && next.Some?
  {
    var (s1, next) := DescendOrAddStep(s, view, k);
    ViewAtOk(s, done);
    DescendOrAddKeepsValid(s, view, k);
    assert (done + [k])[..|done + [k]| - 1] == done && (done + [k])[|done + [k]| - 1] == k;
    if view.Some? && !(view.value in s.edges && s.edges[view.value].Branch?) {
      var e := view.value;
      assert AgreeOffEdge(s, s1, e);
      ViewAtOffEdge(s, s1, e, done, done);
    }
  }

  /**
   * Whatever `descend_or_add` did at the view `done` reaches, an outcome
   * that meets `InsertSpec` for the trie after it also meets it for the
   * trie before it.
   */
  lemma DescendOrAddStepSpec<K(!new), V>(s: Repr<K, V>, view: View<K>, done: seq<K>, k: K, p: seq<K>, v: V,
                                         s': Repr<K, V>, ok: bool)
    requires ValidRepr(s) && s.Standard?
    requires ViewAt(s, done) == Some(view)
    requires done + [k] <= p
    requires InsertSpec(DescendOrAddStep(s, view, k).0, p, v, s', ok)
    ensures InsertSpec(s, p, v, s', ok)
  {
    if view.Some? && !(view.value in s.edges && s.edges[view.value].Branch?) {
      assert done < p;
      CreateStepSpec(s, done, view.value, p, v, s', ok);
    }
  }

  /**
   * `insert` continued from the view that `done` reaches, with `rest` still
   * to go, does what `InsertSpec` says for the whole path `done + rest`.
   */
  lemma {:induction false} InsertFromSpec<K(!new), V>(s: Repr<K, V>, view: View<K>, done: seq<K>, rest: seq<K>, v: V)
    requires ValidRepr(s) && s.Standard?
    requires ViewAt(s, done) == Some(view)
    ensures InsertSpec(s, done + rest, v, InsertFrom(s, view, rest, v).0, InsertFrom(s, view, rest, v).1)
    decreases |rest|
  {
    if rest == [] {
      assert done + rest == done;
      SetValueSpec(s, view, done, v);
    } else {
      var k := rest[0];
      var (s1, next) := DescendOrAddStep(s, view, k);
      DescendOrAddStepView(s, view, done, k);
      var r := InsertFrom(s1, next.value, rest[1..], v);
      assert InsertFrom(s, view, rest, v) == r;
      assert done + rest == (done + [k]) + rest[1..];
      InsertFromSpec(s1, next.value, done + [k], rest[1..], v);
      DescendOrAddStepSpec(s, view, done, k, done + rest, v, r.0, r.1);
    }
  }

  /** On a Trivial trie `insert` fails and changes nothing, whatever the path. */
  lemma TrivialInsertFails<K, V>(s: Repr<K, V>, p: seq<K>, v: V)
    requires s.Trivial?
    ensures InsertFrom(s, None, p, v) == (s, false)
  {
    if |p| > 1 {
      assert InsertFrom(s, Some((0, p[0])), p[1..], v) == (s, false);
    }
  }

  /** `insert(p, v)` on any valid trie does what `InsertSpec` says. */
  lemma InsertCorrect<K(!new), V>(s: Repr<K, V>, p: seq<K>, v: V)
    requires ValidRepr(s)
    ensures InsertSpec(s, p, v, InsertFrom(s, None, p, v).0, InsertFrom(s, None, p, v).1)
  {
    if s.Standard? {
      assert [] + p == p;
      InsertFromSpec(s, None, [], p, v);
    } else {
      TrivialInsertFails(s, p, v);
    }
  }

  // ---------------------------------------------------------------------
  // What get sees
  // ---------------------------------------------------------------------

  /**
   * On a non-empty path `get` returns the value of the Leaf the path
   * reaches, and the default `get` of `src/trie/mod.rs` agrees with it.
   */
  lemma LookupByNode<K, V>(s: Repr<K, V>, p: seq<K>)
    requires p != []
    ensures Lookup(s, p) == (if NodeAt(s, p).Some? && NodeAt(s, p).value.Leaf? then Some(NodeAt(s, p).value.value) else None)
    ensures DefaultLookup(s, p) == Lookup(s, p)
  {
    ViewAtRoot(s, p);
  }

  /** A fresh trie is valid and stores nothing. */
  lemma NewIsEmpty<K, V>(p: seq<K>)
    ensures ValidRepr(New<K, V>())
    ensures Lookup(New<K, V>(), p) == None && DefaultLookup(New<K, V>(), p) == None
  {
    if p != [] {
      LookupByNode(New<K, V>(), p);
    }
  }

  /** `get` on a Trivial trie finds nothing, not even at the empty path. */
  lemma TrivialLookupNone<K, V>(s: Repr<K, V>, p: seq<K>)
    requires s.Trivial?
    ensures Lookup(s, p) == None
  {
    if p != [] {
      LookupByNode(s, p);
    }
  }

  /** After a successful `insert` of a non-empty path, `get` returns the new value. */
  lemma InsertThenGet<K(!new), V>(s: Repr<K, V>, p: seq<K>, v: V)
    requires ValidRepr(s) && p != []
    requires InsertFrom(s, None, p, v).1
    ensures Lookup(InsertFrom(s, None, p, v).0, p) == Some(v)
  {
    InsertCorrect(s, p, v);
    LookupByNode(InsertFrom(s, None, p, v).0, p);
  }

  /**
   * `insert(p, v)` leaves the value `get` finds at every path that is not a
   * prefix of `p`; after a success the proper prefixes of `p` hold no value.
   */
  lemma InsertKeepsOtherPaths<K(!new), V>(s: Repr<K, V>, p: seq<K>, v: V, q: seq<K>)
    requires ValidRepr(s)
    ensures !(q <= p) ==> Lookup(InsertFrom(s, None, p, v).0, q) == Lookup(s, q)
    ensures InsertFrom(s, None, p, v).1 && q < p ==> Lookup(InsertFrom(s, None, p, v).0, q) == None
  {
    var (s', ok) := InsertFrom(s, None, p, v);
    InsertCorrect(s, p, v);
    if q != [] {
      LookupByNode(s, q);
      LookupByNode(s', q);
      if !(q <= p) {
        assert NodeAt(s', q) == NodeAt(s, q);
      } else if ok && q < p {
        assert IsBranchAt(s', q);
      }
    }
  }

  /**
   * When `insert` succeeds: on a Standard trie, for the empty path exactly
   * when its map is empty, otherwise exactly when the path does not lead to
   * a Branch.  A failed `insert` changes nothing.
   */
  lemma InsertSucceedsIff<K(!new), V>(s: Repr<K, V>, p: seq<K>, v: V)
    requires ValidRepr(s)
    ensures InsertFrom(s, None, p, v).1 <==> s.Standard? && (if p == [] then |s.edges| == 0 else !IsBranchAt(s, p))
    ensures !InsertFrom(s, None, p, v).1 ==> InsertFrom(s, None, p, v).0 == s
  {
    InsertCorrect(s, p, v);
  }

  /** The stored paths are prefix-free: below a stored value nothing else is found. */
  lemma StoredPathsPrefixFree<K, V>(s: Repr<K, V>, p: seq<K>, q: seq<K>)
    requires Lookup(s, p).Some?
    requires p < q
    ensures Lookup(s, q) == None
  {
    ViewAtRoot(s, p);
    ViewAtDeadEnd(s, p, q);
  }

  /** Inserting a proper prefix of a stored path fails and changes nothing. */
  lemma InsertPrefixOfStoredFails<K(!new), V>(s: Repr<K, V>, p: seq<K>, q: seq<K>, v: V)
    requires ValidRepr(s)
    requires Lookup(s, q).Some?
    requires p < q
    ensures InsertFrom(s, None, p, v) == (s, false)
  {
    assert s.Standard? && (if p == [] then |s.edges| != 0 else IsBranchAt(s, p)) by {
      LookupByNode(s, q);
      ViewAtRoot(s, q);
      ViewAtPrefix(s, p, q);
      ViewAtRoot(s, p);
    }
    InsertSucceedsIff(s, p, v);
  }

  /** Inserting a stored path again succeeds and replaces its value. */
  lemma ReinsertReplaces<K(!new), V>(s: Repr<K, V>, p: seq<K>, w: V, v: V)
    requires ValidRepr(s)
    requires Lookup(s, p) == Some(w)
    ensures InsertFrom(s, None, p, v).1
    ensures Lookup(InsertFrom(s, None, p, v).0, p) == Some(v)
  {
    LookupByNode(s, p);
    InsertCorrect(s, p, v);
    LookupByNode(InsertFrom(s, None, p, v).0, p);
  }

  /**
   * Two insertions into a fresh trie of paths neither of which is a prefix
   * of the other both succeed, and both values are found afterwards.
   */
  lemma TwoDisjointInserts<K(!new), V>(a: seq<K>, b: seq<K>, va: V, vb: V)
    requires !(a <= b) && !(b <= a)
    ensures var (s1, ok1) := InsertFrom(New<K, V>(), None, a, va);
      var (s2, ok2) := InsertFrom(s1, None, b, vb);
      ok1 && ok2 && Lookup(s2, a) == Some(va) && Lookup(s2, b) == Some(vb)
  {
    var s0 := New<K, V>();
    var (s1, ok1) := InsertFrom(s0, None, a, va);
    InsertCorrect(s0, a, va);
    InsertCorrect(s1, b, vb);
    InsertThenGet(s0, a, va);
    InsertThenGet(s1, b, vb);
    InsertKeepsOtherPaths(s1, b, vb, a);
  }

  // ---------------------------------------------------------------------
  // Finding: the empty path
  // ---------------------------------------------------------------------

  /**
   * Inserting the empty path into a fresh trie succeeds and makes it
   * Trivial, yet `get` of the empty path then finds nothing, because
   * `get_view` rejects the empty path.
   */
  lemma EmptyPathStoredButUnreadable<K, V>(v: V)
    ensures InsertFrom(New<K, V>(), None, [], v) == (Trivial(v), true)
    ensures Lookup(InsertFrom(New<K, V>(), None, [], v).0, []) == None
  {
  }

  /**
   * With the default `get` of `src/trie/mod.rs`, which starts at the root
   * view, every successful `insert` is readable, the empty path included.
   */
  lemma InsertThenDefaultGet<K(!new), V>(s: Repr<K, V>, p: seq<K>, v: V)
    requires ValidRepr(s)
    requires InsertFrom(s, None, p, v).1
    ensures DefaultLookup(InsertFrom(s, None, p, v).0, p) == Some(v)
  {
    InsertCorrect(s, p, v);
    if p != [] {
      LookupByNode(InsertFrom(s, None, p, v).0, p);
    }
  }

  // ---------------------------------------------------------------------
  // Finding: descend_or_add replaces a Leaf
  // ---------------------------------------------------------------------

  /**
   * Inserting an extension of a stored path succeeds and silently discards
   * the stored value.
   */
  lemma InsertExtensionDiscardsStored<K(!new), V>(s: Repr<K, V>, p: seq<K>, k: K, w: V, v: V)
    requires ValidRepr(s)
    requires Lookup(s, p) == Some(w)
    ensures InsertFrom(s, None, p + [k], v).1
    ensures Lookup(InsertFrom(s, None, p + [k], v).0, p) == None
    ensures Lookup(InsertFrom(s, None, p + [k], v).0, p + [k]) == Some(v)
  {
    LookupByNode(s, p);
    ViewAtRoot(s, p);
    assert (p + [k])[..|p + [k]| - 1] == p;
    assert p < p + [k];
    InsertCorrect(s, p + [k], v);
    InsertThenGet(s, p + [k], v);
    InsertKeepsOtherPaths(s, p + [k], v, p);
  }

  /**
   * `descend_or_add` as the `TrieViewMut` documentation describes it: at an
   * edge holding a Leaf it gives None instead of replacing the Leaf.
   */
  function DescendOrAddChecked<K(==), V>(s: Repr<K, V>, view: View<K>, key: K): (Repr<K, V>, Option<View<K>>)
  {
    if s.Standard? && view.Some? && view.value in s.edges && s.edges[view.value].Leaf? then (s, None)
    else DescendOrAddStep(s, view, key)
  }

  /** `insert` built on `DescendOrAddChecked`. */
  function InsertFromChecked<K(==), V>(s: Repr<K, V>, view: View<K>, rest: seq<K>, v: V): (Repr<K, V>, bool)
    decreases |rest|
  {
    if rest == [] then SetValueStep(s, view, v)
    else
      var (s1, next) := DescendOrAddChecked(s, view, rest[0]);
      match next
      case None => (s1, false)
      case Some(w) => InsertFromChecked(s1, w, rest[1..], v)
  }

  /** Some proper prefix of `p` holds a value. */
  ghost predicate StoredAbove<K(!new), V>(s: Repr<K, V>, p: seq<K>)
  {
    exists q :: q < p && Lookup(s, q).Some?
  }

  /** Two prefixes of the same sequence are prefixes of one another. */
  lemma PrefixesComparable<K>(a: seq<K>, b: seq<K>, p: seq<K>)
    requires a <= p && b <= p
    ensures a <= b || b <= a
  {
    if |a| <= |b| {
      assert b[..|a|] == p[..|a|];
    } else {
      assert a[..|b|] == p[..|b|];
    }
  }

  /** Above a reachable view no value is stored. */
  lemma NothingStoredAboveView<K, V>(s: Repr<K, V>, d: seq<K>, q: seq<K>)
    requires ViewAt(s, d).Some?
    requires q < d
    ensures Lookup(s, q) == None
  {
    if q != [] {
      ViewAtPrefix(s, q, d);
      ViewAtRoot(s, q);
      LookupByNode(s, q);
    }
  }

  /**
   * After a fresh Branch replaces the absent edge `e` that `d` reaches, no
   * proper prefix of a path `p` extending `d` holds a value, before or after.
   */
  lemma CreateStoresNothingAbove<K(!new), V>(s: Repr<K, V>, d: seq<K>, e: Edge<K>, p: seq<K>)
    requires ValidRepr(s) && s.Standard?
    requires ViewAt(s, d) == Some(Some(e)) && e !in s.edges
    requires d < p
    ensures !StoredAbove(s, p)
    ensures !StoredAbove(Standard(s.edges[e := Branch(s.nextId)], s.nextId + 1), p)
  {
    var s1 := Standard(s.edges[e := Branch(s.nextId)], s.nextId + 1);
    forall q | q < p
      ensures Lookup(s, q) == None && Lookup(s1, q) == None
    {
      PrefixesComparable(q, d, p);
      if q != [] {
        LookupByNode(s, q);
        LookupByNode(s1, q);
        if q < d {
          NothingStoredAboveView(s, d, q);
          CreateKeepsOtherNodes(s, d, e, q);
        } else if q == d {
          assert AgreeOffEdge(s, s1, e);
          ViewAtOffEdge(s, s1, e, d, d);
        } else {
          ViewAtDeadEnd(s, d, q);
          CreateKeepsOtherNodes(s, d, e, q);
        }
      }
    }
  }

  /**
   * At an edge holding a Leaf the corrected `insert` stops with false, and
   * that Leaf is a stored value above every extension of the path.
   */
  lemma CheckedStopsAtLeaf<K(!new), V>(s: Repr<K, V>, view: View<K>, done: seq<K>, rest: seq<K>, v: V)
    requires s.Standard? && rest != []
    requires ViewAt(s, done) == Some(view)
    requires view.Some? && view.value in s.edges && s.edges[view.value].Leaf?
    ensures InsertFromChecked(s, view, rest, v) == (s, false)
    ensures StoredAbove(s, done + rest)
  {
    ViewAtRoot(s, done);
    LookupByNode(s, done);
    assert done < done + rest;
  }

  /** At the end of the path the corrected `insert` agrees with the original. */
  lemma CheckedInsertAgreesAtEnd<K(!new), V>(s: Repr<K, V>, view: View<K>, done: seq<K>, v: V)
    requires ViewAt(s, done) == Some(view)
    ensures !StoredAbove(s, done + [])
    ensures InsertFromChecked(s, view, [], v) == InsertFrom(s, view, [], v)
  {
    assert done + [] == done;
    forall q | q < done
      ensures Lookup(s, q) == None
    {
      NothingStoredAboveView(s, done, q);
    }
  }

  /**
   * When a proper prefix of the path holds a value, the corrected `insert`
   * returns false and changes nothing; otherwise it does what the original
   * does (which may itself return false, say at a Branch).
   */
  lemma {:induction false} CheckedInsertAgrees<K(!new), V>(s: Repr<K, V>, view: View<K>, done: seq<K>, rest: seq<K>, v: V)
    requires ValidRepr(s) && s.Standard?
    requires ViewAt(s, done) == Some(view)
    ensures InsertFromChecked(s, view, rest, v) ==
      if StoredAbove(s, done + rest) then (s, false) else InsertFrom(s, view, rest, v)
    decreases |rest|, 1
  {
    if rest == [] {
      CheckedInsertAgreesAtEnd(s, view, done, v);
    } else if view.Some? && view.value in s.edges && s.edges[view.value].Leaf? {
      CheckedStopsAtLeaf(s, view, done, rest, v);
    } else if view.Some? && view.value !in s.edges {
      CheckedInsertAgreesCreate(s, view.value, done, rest, v);
    } else {
      CheckedInsertAgreesDescend(s, view, done, rest, v);
    }
  }

  /** The step of `CheckedInsertAgrees` through an existing Branch or the root. */
  lemma {:induction false} CheckedInsertAgreesDescend<K(!new), V>(s: Repr<K, V>, view: View<K>, done: seq<K>, rest: seq<K>, v: V)
    requires ValidRepr(s) && s.Standard?
    requires ViewAt(s, done) == Some(view)
    requires rest != []
    requires Passable(s, view)
    ensures InsertFromChecked(s, view, rest, v) ==
      if StoredAbove(s, done + rest) then (s, false) else InsertFrom(s, view, rest, v)
    decreases |rest|, 0
  {
    DescendBothInserts(s, view, done, rest, v);
    CheckedInsertAgrees(s, Descend(s, view, rest[0]).value, done + [rest[0]], rest[1..], v);
  }

  /**
   * From a view that can be descended from, both inserts take the same
   * first step: they move, changing nothing, to the child along the first
   * key, which is the view the path extended by that key reaches.
   */
  lemma DescendBothInserts<K, V>(s: Repr<K, V>, view: View<K>, done: seq<K>, rest: seq<K>, v: V)
    requires ViewAt(s, done) == Some(view)
    requires Passable(s, view)
    requires rest != []
    ensures Descend(s, view, rest[0]).Some?
    ensures ViewAt(s, done + [rest[0]]) == Descend(s, view, rest[0])
    ensures done + rest == (done + [rest[0]]) + rest[1..]
    ensures InsertFromChecked(s, view, rest, v) == InsertFromChecked(s, Descend(s, view, rest[0]).value, rest[1..], v)
    ensures InsertFrom(s, view, rest, v) == InsertFrom(s, Descend(s, view, rest[0]).value, rest[1..], v)
  {
    var w := Descend(s, view, rest[0]).value;
    assert DescendOrAddStep(s, view, rest[0]) == (s, Some(w));
    assert (done + [rest[0]])[..|done|] == done;
    assert rest == [rest[0]] + rest[1..];
  }

  /** The step of `CheckedInsertAgrees` that creates a fresh Branch on an absent edge. */
  lemma {:induction false} CheckedInsertAgreesCreate<K(!new), V>(s: Repr<K, V>, e: Edge<K>, done: seq<K>, rest: seq<K>, v: V)
    requires ValidRepr(s) && s.Standard?
    requires ViewAt(s, done) == Some(Some(e))
    requires rest != []
    requires e !in s.edges
    ensures InsertFromChecked(s, Some(e), rest, v) ==
      if StoredAbove(s, done + rest) then (s, false) else InsertFrom(s, Some(e), rest, v)
    decreases |rest|, 0
  {
    var k := rest[0];
    var s1 := Standard(s.edges[e := Branch(s.nextId)], s.nextId + 1);
    var w: View<K> := Some((s.nextId, k));
    assert DescendOrAddStep(s, Some(e), k) == (s1, Some(w));
    assert DescendOrAddChecked(s, Some(e), k) == (s1, Some(w));
    assert done + rest == (done + [k]) + rest[1..] by {
      assert rest == [k] + rest[1..];
    }
    assert ValidRepr(s1) && ViewAt(s1, done + [k]) == Some(w) by {
      DescendOrAddStepView(s, Some(e), done, k);
    }
    CheckedInsertAgrees(s1, w, done + [k], rest[1..], v);
    CreateStoresNothingAbove(s, done, e, done + rest);
  }

  /**
   * The corrected `insert` never loses a stored value: a success stores the
   * new value at `p` and every other path keeps what `get` found there; a
   * failure changes nothing.
   */
  lemma CheckedInsertKeepsStored<K(!new), V>(s: Repr<K, V>, p: seq<K>, v: V, q: seq<K>)
    requires ValidRepr(s)
    ensures var (s', ok) := InsertFromChecked(s, None, p, v);
      && ValidRepr(s')
      && (!ok ==> s' == s)
      && (ok && p != [] ==> Lookup(s', p) == Some(v))
      && (ok && q != p ==> Lookup(s', q) == Lookup(s, q))
  {
    if s.Trivial? {
      TrivialInsertFails(s, p, v);
      if |p| > 1 {
        assert InsertFromChecked(s, Some((0, p[0])), p[1..], v) == (s, false);
      }
    } else {
      assert [] + p == p;
      CheckedInsertAgrees(s, None, [], p, v);
      InsertCorrect(s, p, v);
      var (s', ok) := InsertFromChecked(s, None, p, v);
      if ok {
        if p != [] {
          InsertThenGet(s, p, v);
        }
        InsertKeepsOtherPaths(s, p, v, q);
      }
    }
  }

  /** The corrected `insert` refuses to extend a stored path. */
  lemma CheckedInsertExtensionFails<K(!new), V>(s: Repr<K, V>, p: seq<K>, k: K, w: V, v: V)
    requires ValidRepr(s)
    requires Lookup(s, p) == Some(w)
    ensures InsertFromChecked(s, None, p + [k], v) == (s, false)
  {
    LookupByNode(s, p);
    assert p < p + [k];
    assert StoredAbove(s, p + [k]);
    assert [] + (p + [k]) == p + [k];
    CheckedInsertAgrees(s, None, [], p + [k], v);
  }

  // ---------------------------------------------------------------------
  // The documented contracts of the view traits
  // ---------------------------------------------------------------------

  /** What a view shows, in the terms of the `TrieView`/`TrieViewMut` documentation. */
  datatype Kind<V> = LeafKind(value: V) | BranchKind | AbsentChild | Detached

  /**
   * The root of a Trivial trie is a Leaf, any other view of it is detached;
   * the root of a Standard trie is a Branch, and an edge shows the node it
   * holds or a child that does not exist yet.
   */
  function KindOf<K(==), V>(s: Repr<K, V>, view: View<K>): Kind<V>
  {
    match s
    case Trivial(value) => if view.None? then LeafKind(value) else Detached
    case Standard(edges, _) =>
      if view.None? then BranchKind
      else if view.value !in edges then AbsentChild
      else match edges[view.value]
        case Branch(_) => BranchKind
        case Leaf(x) => LeafKind(x)
  }

  /**
   * `value` is Some exactly at a Leaf, and no view has both a value and a
   * child.
   */
  lemma ValueOnlyAtLeaf<K, V>(s: Repr<K, V>, view: View<K>, k: K)
    ensures Value(s, view).Some? <==> KindOf(s, view).LeafKind?
    ensures Value(s, view).Some? ==> Value(s, view).value == KindOf(s, view).value
    ensures Value(s, view).Some? ==> Descend(s, view, k).None?
  {
  }

  /**
   * `descend` succeeds exactly from a Branch.  It does not check that the
   * Branch has a child along `k`, so, unlike what the `TrieView`
   * documentation promises, the view it returns can show an absent child
   * (see `DescendReachesAbsentChild`).
   */
  lemma DescendOnlyFromBranch<K, V>(s: Repr<K, V>, view: View<K>, k: K)
    ensures Descend(s, view, k).Some? <==> KindOf(s, view).BranchKind?
  {
  }

  /**
   * Against the `TrieView` documentation, `descend` from a Branch without a
   * child along `k` still returns a view, of that absent child; in a new
   * trie `get_view` of any one-key path therefore finds a view although no
   * node exists there.
   */
  lemma DescendReachesAbsentChild<K, V>(k: K)
    ensures Descend(New<K, V>(), None, k) == Some(Some((0, k)))
    ensures (0, k) !in New<K, V>().edges
    ensures GetViewOf(New<K, V>(), [k]) == Some(Some((0, k)))
    ensures KindOf(New<K, V>(), Some((0, k))) == AbsentChild
  {
    assert [k][..|[k]| - 1] == [];
    assert ViewAt(New<K, V>(), [k]) == Descend(New<K, V>(), None, k);
  }

  /**
   * `set_value` against its documented contract: a Leaf at an edge is
   * overwritten and a missing child becomes a Leaf, both returning true; a
   * Branch returns false and changes nothing, except that the root of an
   * empty Standard trie becomes Trivial; the Leaf at the root of a Trivial
   * trie is not overwritten.
   */
  lemma SetValueContract<K, V>(s: Repr<K, V>, view: View<K>, v: V)
    ensures var (s', ok) := SetValueStep(s, view, v);
      && (KindOf(s, view).LeafKind? && view.Some? ==> ok && KindOf(s', view) == LeafKind(v))
      && (KindOf(s, view).AbsentChild? ==> ok && KindOf(s', view) == LeafKind(v))
      && (KindOf(s, view).BranchKind? ==> (ok <==> view.None? && |s.edges| == 0))
      && (KindOf(s, view).BranchKind? && ok ==> s' == Trivial(v))
      && (s.Trivial? ==> !ok)
      && (!ok ==> s' == s)
  {
  }

  /**
   * `descend_or_add` against its documented contract: from a Branch it gives
   * the view of the child and changes nothing; at a missing child it creates
   * that child as a Branch and gives a view of its (missing) child.  Where
   * the documentation promises None it differs: a Leaf at an edge is
   * replaced by a Branch, losing its value, and the Leaf root of a Trivial
   * trie is descended from.  Only a detached view gives None.
   */
  lemma DescendOrAddContract<K, V>(s: Repr<K, V>, view: View<K>, k: K)
    requires ValidRepr(s) && ViewOk(s, view)
    ensures var (s1, next) := DescendOrAddStep(s, view, k);
      && (KindOf(s, view).BranchKind? ==> s1 == s && next == Descend(s, view, k))
      && (KindOf(s, view).AbsentChild? || (KindOf(s, view).LeafKind? && view.Some?) ==>
            && KindOf(s1, view) == BranchKind && Value(s1, view) == None
            && next.Some? && KindOf(s1, next.value) == AbsentChild)
      && (s.Trivial? && view.None? ==> next == Some(Some((0, k))))
      && (KindOf(s, view).Detached? ==> next.None? && s1 == s)
  {
    if s.Standard? && view.Some? && !(view.value in s.edges && s.edges[view.value].Branch?) {
      OriginBelowNext(s, view.value.0);
      FreshIdHasNoEdges(s, k);
    }
  }

  // ---------------------------------------------------------------------
  // The hash trie as an instance of the default trait methods
  // ---------------------------------------------------------------------

  /** The walk is the default `get_view` loop run with `descend`. */
  lemma {:induction false} ViewAtIsDefaultWalk<K, V>(s: Repr<K, V>, path: seq<K>)
    ensures ViewAt(s, path) == Trie.Walk((w: View<K>, k: K) => Descend(s, w, k), None, path)
    decreases |path|
  {
    if path != [] {
      ViewAtIsDefaultWalk(s, path[..|path| - 1]);
    }
  }

  /**
   * `HashTrie::insert` is the default `insert` loop run with
   * `descend_or_add` and `set_value`.
   */
  lemma {:induction false} InsertFromIsDefaultInsert<K, V>(s: Repr<K, V>, view: View<K>, rest: seq<K>, v: V)
    ensures InsertFrom(s, view, rest, v) ==
      Trie.InsertWalk((t: Repr<K, V>, w: View<K>, k: K) => DescendOrAddStep(t, w, k),
                      (t: Repr<K, V>, w: View<K>, x: V) => SetValueStep(t, w, x), s, view, rest, v)
    decreases |rest|
  {
    if rest != [] {
      var (s1, next) := DescendOrAddStep(s, view, rest[0]);
      if next.Some? {
        InsertFromIsDefaultInsert(s1, next.value, rest[1..], v);
      }
    }
  }

  // ---------------------------------------------------------------------
  // The trie as an object updated in place
  // ---------------------------------------------------------------------

  /**
   * `HashTrie` with its operations; the views of the source, which borrow
   * the trie, become arguments and results of its methods.
   */
  class HashTrie<K(==, !new), V> {
    var repr: Repr<K, V>

    ghost predicate Valid()
      reads this
    {
      ValidRepr(repr)
    }

    /** `HashTrie::new`. */
    constructor()
      ensures repr == New()
      ensures Valid()
    {
      repr := New();
    }

    /** `set_value` at `view`: stores in place and reports success. */
    method SetValue(view: View<K>, v: V) returns (ok: bool)
      requires Valid() && ViewOk(repr, view)
      modifies this
      ensures (repr, ok) == SetValueStep(old(repr), view, v)
      ensures Valid()
    {
      SetValueKeepsValid(repr, view, v);
      match repr
      case Trivial(_) =>
        ok := false;
      case Standard(edges, nextId) =>
        match view
        case None =>
          if |edges| == 0 {
            repr := Trivial(v);
            ok := true;
          } else {
            ok := false;
          }
        case Some(e) =>
          if e !in edges || edges[e].Leaf? {
            repr := Standard(edges[e := Leaf(v)], nextId);
            ok := true;
          } else {
            ok := false;
          }
    }

    /** `descend_or_add` from `view` along `key`. */
    method DescendOrAdd(view: View<K>, key: K) returns (next: Option<View<K>>)
      requires Valid() && ViewOk(repr, view)
      modifies this
      ensures (repr, next) == DescendOrAddStep(old(repr), view, key)
      ensures Valid() && (next.Some? ==> ViewOk(repr, next.value))
    {
      DescendOrAddKeepsValid(repr, view, key);
      match view
      case None =>
        next := Some(Some((0, key)));
      case Some(e) =>
        match repr
        case Trivial(_) =>
          next := None;
        case Standard(edges, nextId) =>
          if e in edges && edges[e].Branch? {
            next := Some(Some((edges[e].id, key)));
          } else {
            repr := Standard(edges[e := Branch(nextId)], nextId + 1);
            next := Some(Some((nextId, key)));
          }
    }

    /**
     * `insert`: walks the path with `DescendOrAdd`, giving up at the first
     * None, then calls `SetValue`.
     */
    method Insert(path: seq<K>, v: V) returns (ok: bool)
      requires Valid()
      modifies this
      ensures (repr, ok) == InsertFrom(old(repr), None, path, v)
      ensures InsertSpec(old(repr), path, v, repr, ok)
      ensures Valid()
    {
      ghost var s0 := repr;
      var view: View<K> := None;
      for i := 0 to |path|
        invariant InsertFrom(repr, view, path[i..], v) == InsertFrom(s0, None, path, v)
        invariant Valid() && ViewOk(repr, view)
      {
        assert path[i..][0] == path[i] && path[i..][1..] == path[i + 1..];
        var next := DescendOrAdd(view, path[i]);
        if next.None? {
          ok := false;
          InsertCorrect(s0, path, v);
          return;
        }
        view := next.value;
      }
      assert path[|path|..] == [];
      ok := SetValue(view, v);
      InsertCorrect(s0, path, v);
    }

    /**
     * `get_view`: None for the empty path; otherwise descends from the root
     * one key at a time, giving up at the first None.
     */
    method GetView(path: seq<K>) returns (r: Option<View<K>>)
      ensures r == GetViewOf(repr, path)
    {
      if |path| == 0 {
        return None;
      }
      var first := Descend(repr, None, path[0]);
      assert path[..1][..0] == [];
      if first.None? {
        ViewAtStaysFailed(repr, path[..1], path);
        return None;
      }
      var view := first.value;
      var i := 1;
      while i < |path|
        invariant 1 <= i <= |path|
        invariant ViewAt(repr, path[..i]) == Some(view)
      {
        assert path[..i + 1][..i] == path[..i];
        var next := Descend(repr, view, path[i]);
        if next.None? {
          ViewAtStaysFailed(repr, path[..i + 1], path);
          return None;
        }
        view := next.value;
        i := i + 1;
      }
      assert path[..i] == path;
      return Some(view);
    }

    /** `get`: the value at the view `get_view` finds. */
    method Get(path: seq<K>) returns (r: Option<V>)
      ensures r == Lookup(repr, path)
    {
      var view := GetView(path);
      match view
      case None =>
        r := None;
      case Some(w) =>
        r := Value(repr, w);
    }
  }
}
