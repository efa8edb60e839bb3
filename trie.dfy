/**
 * The default methods of the `Trie` and `TrieMut` traits, written once over
 * any view type `W`: a view is a cursor on one node, `descend` moves it to
 * a child, `descendOrAdd` may also create that child in the state `S`, and
 * `setValue` stores a value at the viewed node.  The trait's own contracts
 * for these operations are stated against the hash trie in `TrieHash`.
 */
module Trie {
  import opened Optional

  /**
   * The view reached from `start` by descending through `path` key by key,
   * or None as soon as one descent fails.
   */
  function Walk<K, W>(descend: (W, K) -> Option<W>, start: W, path: seq<K>): Option<W>
    decreases |path|
  {
    if path == [] then Some(start)
    else match Walk(descend, start, path[..|path| - 1])
      case None => None
      case Some(w) => descend(w, path[|path| - 1])
  }

  /**
   * What the default `insert` computes: `descendOrAdd` on every key in
   * order, stopping with false at the first None, then `setValue`.
   */
  function InsertWalk<K, S, W, V>(descendOrAdd: (S, W, K) -> (S, Option<W>), setValue: (S, W, V) -> (S, bool),
                                  s: S, view: W, path: seq<K>, v: V): (S, bool)
    decreases |path|
  {
    if path == [] then setValue(s, view, v)
    else
      var (s1, next) := descendOrAdd(s, view, path[0]);
      match next
      case None => (s1, false)
      case Some(w) => InsertWalk(descendOrAdd, setValue, s1, w, path[1..], v)
  }

  /** Descending through `p` and then through `q` is descending through `p + q`. */
  lemma {:induction false} WalkAppend<K, W>(descend: (W, K) -> Option<W>, start: W, p: seq<K>, q: seq<K>)
    ensures Walk(descend, start, p + q) ==
      match Walk(descend, start, p)
      case None => None
      case Some(w) => Walk(descend, w, q)
    decreases |q|
  {
    if q == [] {
      assert p + q == p;
    } else {
      var q' := q[..|q| - 1];
      assert (p + q)[..|p + q| - 1] == p + q';
      assert (p + q)[|p + q| - 1] == q[|q| - 1];
      WalkAppend(descend, start, p, q');
    }
  }

  /** Once a descent has failed, no longer path gets through. */
  lemma WalkStaysFailed<K, W>(descend: (W, K) -> Option<W>, start: W, p: seq<K>, q: seq<K>)
    requires Walk(descend, start, p) == None
    ensures Walk(descend, start, p + q) == None
  {
    WalkAppend(descend, start, p, q);
  }

  /**
   * A successful default `insert` always ends in a `setValue` that returned
   * true: no descent alone can make it succeed.
   */
  lemma {:induction false} InsertWalkSucceedsOnlyBySetValue<K, S, W, V>(
    descendOrAdd: (S, W, K) -> (S, Option<W>), setValue: (S, W, V) -> (S, bool),
    s: S, view: W, path: seq<K>, v: V)
    requires InsertWalk(descendOrAdd, setValue, s, view, path, v).1
    ensures exists s1, w :: setValue(s1, w, v) == (InsertWalk(descendOrAdd, setValue, s, view, path, v).0, true)
    decreases |path|
  {
    if path == [] {
      assert setValue(s, view, v) == (InsertWalk(descendOrAdd, setValue, s, view, path, v).0, true);
    } else {
      var (s1, next) := descendOrAdd(s, view, path[0]);
      InsertWalkSucceedsOnlyBySetValue(descendOrAdd, setValue, s1, next.value, path[1..], v);
    }
  }

  /**
   * `Trie::get_view`: starting from the root view, a loop that replaces the
   * view by its descent along each key and gives up at the first None.
   */
  method DefaultGetView<K, W>(descend: (W, K) -> Option<W>, root: W, path: seq<K>) returns (r: Option<W>)
    ensures r == Walk(descend, root, path)
  {
    var view := root;
    for i := 0 to |path|
      invariant Walk(descend, root, path[..i]) == Some(view)
    {
      assert path[..i + 1][..i] == path[..i];
      var next := descend(view, path[i]);
      if next.None? {
        WalkStaysFailed(descend, root, path[..i + 1], path[i + 1..]);
        assert path[..i + 1] + path[i + 1..] == path;
        return None;
      }
      view := next.value;
    }
    assert path[..|path|] == path;
    return Some(view);
  }

  /**
   * `Trie::get`: the same loop, then the value of the view reached
   * (`intoValue`), or None when some descent failed.
   */
  method DefaultGet<K, W, V>(descend: (W, K) -> Option<W>, intoValue: W -> Option<V>, root: W, path: seq<K>)
    returns (r: Option<V>)
    ensures r == match Walk(descend, root, path) case None => None case Some(w) => intoValue(w)
  {
    var view := root;
    for i := 0 to |path|
      invariant Walk(descend, root, path[..i]) == Some(view)
    {
      assert path[..i + 1][..i] == path[..i];
      var next := descend(view, path[i]);
      if next.None? {
        WalkStaysFailed(descend, root, path[..i + 1], path[i + 1..]);
        assert path[..i + 1] + path[i + 1..] == path;
        return None;
      }
      view := next.value;
    }
    assert path[..|path|] == path;
    r := intoValue(view);
  }

  /**
   * `TrieMut::insert`: a loop calling `descendOrAdd` on each key, returning
   * false at the first None without calling `setValue`, and otherwise
   * returning what `setValue` returns.  The trie is threaded through as a
   * value.
   */
  method DefaultInsert<K, S, W, V>(descendOrAdd: (S, W, K) -> (S, Option<W>), setValue: (S, W, V) -> (S, bool),
                                   s: S, root: W, path: seq<K>, v: V)
    returns (s': S, ok: bool)
    ensures (s', ok) == InsertWalk(descendOrAdd, setValue, s, root, path, v)
  {
    var view := root;
    s' := s;
    for i := 0 to |path|
      invariant InsertWalk(descendOrAdd, setValue, s', view, path[i..], v) == InsertWalk(descendOrAdd, setValue, s, root, path, v)
    {
      assert path[i..][0] == path[i] && path[i..][1..] == path[i + 1..];
      var next;
      s', next := descendOrAdd(s', view, path[i]).0, descendOrAdd(s', view, path[i]).1;
      if next.None? {
        return s', false;
      }
      view := next.value;
    }
    assert path[|path|..] == [];
    s', ok := setValue(s', view, v).0, setValue(s', view, v).1;
  }
}
