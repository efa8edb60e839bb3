# Slang tries and tokenizer, modelled in Dafny

Slang is a small macro expander. This project models the data structures it
was building for its macro table, plus its whitespace tokenizer:

- **The hash trie** (`src/trie/hash.rs`). A trie maps key sequences to values.
  It is stored in one of two forms:
  - *Trivial*: the empty path holds a value.
  - *Standard*: one flat map from an edge to the node that edge reaches, plus
    the next free node id.
  
  An edge is a pair: the id of the node it leaves, and a key. A node is either
  a Branch with its own id or a Leaf with a value. Id 0 is the root.

  A *view* is a cursor: the edge leading to the current node, or none at the
  root. Reading uses `value` and `descend`. Writing uses `set_value` and
  `descend_or_add`. `get_view`, `get` and `insert` are built from these.

  The pure functions of module `TrieHash` (`Value`, `Descend`, `ViewAt`,
  `Lookup`, `SetValueStep`, `DescendOrAddStep`, `InsertFrom`) specify the
  operations. The class `TrieHash.HashTrie` performs them by updating its one
  field in place, and each method is proved equal to its function.

  The arena invariant `ValidRepr` says three things:
  - Branch ids are below the next free id.
  - Branch ids are unique.
  - Every edge leaves the root or an existing branch.
  
  Every operation preserves it. `InsertSpec` states in full what `insert`
  does to the trie.
- **The trait defaults** (`src/trie/mod.rs`). The default `get_view`, `get`
  and `insert` loops are written once in module `Trie`. They are generic over
  the view type, with `descend`, `descend_or_add` and `set_value` passed in as
  functions. The documented contracts of `TrieView` and `TrieViewMut` are
  stated against the hash trie:
  - `KindOf` classifies what a view shows.
  - The lemmas `ValueOnlyAtLeaf`, `DescendOnlyFromBranch`, `SetValueContract`
    and `DescendOrAddContract` compare each operation with its documentation.
  - `descend` departs from its documentation (`src/trie/mod.rs:75-78`): from
    a Branch it returns a view whether or not the child exists, so the view
    can show an absent child. In a new trie `get_view` of any one-key path
    finds such a view (`TrieHash.DescendReachesAbsentChild`).
  
  `src/trie/hash.rs` does not implement `Trie`, `TrieMut`, `TrieView` or
  `TrieViewMut` for its types; it has only inherent methods. Two lemmas show
  that the hash trie would behave as an instance of the generic loops if it
  did: `TrieHash.ViewAtIsDefaultWalk` and `TrieHash.InsertFromIsDefaultInsert`.
  The same goes for `TrieHash.DefaultLookup`, the default `get` run on the
  hash trie.
- **The older recursive trie** (`src/prefix_tree.rs`). Module `PrefixTree`
  models it as a datatype with four node kinds: branch, path-compressed run,
  leaf and empty. Both `get` and `insert` are recursive functions. Its
  behaviour is modelled as the text is written:
  - A key shorter than a compressed path makes `get` panic (`Outcome.Panics`).
  - `insert` into a compressed node ignores the key and descends with the
    empty key, because the stored `path` shadows the parameter.
  - A leaf turned into a branch keeps its value.
  
  `Routable` names the keys for which `insert` puts the value where `get`
  will look.
- **The tokenizer** (`src/tokenizer.rs`). `read_token` is a method with the
  source's two scans. It is proved equal to `ReadTokenSpec`. `tokenize` is a
  method with the source's `loop`. Corrected versions of both, in module
  `TokenizerCorrected`, are proved to put the input back together.

None of `src/trie`, `src/prefix_tree.rs` or `src/tokenizer.rs` is declared as
a module in `src/main.rs`, so the crate does not compile them. Where the text
would not borrow-check, the model takes its evident meaning:
- At `src/prefix_tree.rs:80-81` the child is updated in place.
- At `src/trie/hash.rs:398` the key of the edge is moved into the new edge.

## Model

| member | source | states |
|---|---|---|
| Tokenizer.Default | src/tokenizer.rs:12-16 | the default separators are exactly space, newline, carriage return and tab |
| Tokenizer.FirstSeparator | src/tokenizer.rs:50-57 | the first scan stops at the first separator: none before it, one at it, or the end of the input |
| Tokenizer.SeparatorRunEnd | src/tokenizer.rs:59-66 | the second scan stops at the first non-separator after the separator run, or at the end |
| Tokenizer.ReadToken | src/tokenizer.rs:47-75 | the two scans over the characters produce exactly `ReadTokenSpec`: each bound is left at 0 when its scan runs out of input, and the slice panics when the token end exceeds the separator end |
| Tokenizer.ReadTokenReassembles | src/tokenizer.rs:68-74 | whenever read_token does not panic, value, suffix and remaining text concatenate back to the input |
| Tokenizer.ReadTokenParts | src/tokenizer.rs:52-66 | the value contains no separator and the suffix contains only separators |
| Tokenizer.ReadTokenSplitsAtSeparatorRun | src/tokenizer.rs:47-75 | when a separator run is followed by a non-separator, the token is the text before the run, its suffix is the run, and reading resumes after the run |
| Tokenizer.ReadTokenWithoutSeparator | src/tokenizer.rs:50-73 | input with no separator gives the empty token and leaves the whole input unread |
| Tokenizer.ReadTokenPanicsIff | src/tokenizer.rs:59-71 | read_token panics exactly when the input starts with a non-separator, contains a separator, and holds nothing but separators from the first one on (both directions) |
| Tokenizer.ReadTokenEmptyIff | src/tokenizer.rs:41-75 | the token read is empty exactly when the input has no separator or has only separators (both directions) |
| Tokenizer.Token.IsEmpty | src/tokenizer.rs:42-44 | a token is empty only when it is `Token("", "")`: no value and no suffix |
| Tokenizer.Tokenize | src/tokenizer.rs:18-33 | within `fuel` iterations, the loop returns no tokens when the input's first token is empty (by `ReadTokenEmptyIff`, when the input has no separator or only separators), panics exactly when read_token panics on the input, and otherwise pushes that same first token once per iteration without ever finishing |
| TokenizerCorrected.ReadTokenCorrected | src/tokenizer.rs:47-75 | with unset bounds taken as the end of the input: value, suffix and rest concatenate to the input, the token is well formed, and it is non-empty on non-empty input |
| TokenizerCorrected.ReadTokenCorrectedMaximal | src/tokenizer.rs:47-75 | the corrected reader takes whole runs: a value not at the input's start is non-empty, what is left starts with a non-separator, and an empty suffix means the input is used up |
| TokenizerCorrected.TokenizeCorrected | src/tokenizer.rs:18-33 | with `remaining` advanced past each token, the loop terminates; the non-empty, well-formed tokens concatenate back to the input; every token but the last has a non-empty suffix and every token but the first a non-empty value, which fixes the split uniquely |
| TokenizerCorrected.ReadTokenEndOfInputDefects | src/tokenizer.rs:50-73 | as written, "a " panics and "ab" yields the empty token with "ab" left unread |
| TokenizerCorrected.ReadTokenCorrectedAtEndOfInput | src/tokenizer.rs:47-75 | corrected, "a " yields the token ("a", " ") and "ab" yields ("ab", ""), with nothing left |
| TokenizerCorrected.TokenizeTwoWordsNeverFinishes | src/tokenizer.rs:20-30 | as written, tokenizing "a b" never finishes: every iteration pushes ("a", " ") again |
| PrefixTree.New | src/prefix_tree.rs:30-35 | a new trie answers every key with no value, and insert stores every key where get will look |
| PrefixTree.Get | src/prefix_tree.rs:37-71 | get consumes one key per branch level and a whole stored path at a compressed node, panicking on a key shorter than that path; a trie without compressed nodes never panics |
| PrefixTree.Insert | src/prefix_tree.rs:73-132 | insert rewrites the node and returns the value it displaced; a branch stays a branch, a leaf becomes a branch (keeping its value below a non-empty key, see `LeafKeepsValueBelowNewKey`), a compressed node keeps its stored path, and no node is left empty |
| PrefixTree.InsertThenGet | src/prefix_tree.rs:73-132 | after inserting a routable key, get of that key returns the new value |
| PrefixTree.InsertReturnsPrevious | src/prefix_tree.rs:73-132 | for a routable key, insert returns the value get found at that key before the insertion |
| PrefixTree.InsertKeepsOtherKeys | src/prefix_tree.rs:73-132 | inserting a routable key leaves every other key's lookup unchanged, except that a shorter key may now panic on the compressed node the insertion created |
| PrefixTree.DisjointInsertsBothRetrievable | src/prefix_tree.rs:75-98 | in a new trie, after inserting two keys whose first elements differ, both values are found |
| PrefixTree.LeafKeepsValueBelowNewKey | src/prefix_tree.rs:116-123 | a leaf turned into a branch keeps its value under the empty key beside the newly inserted key, so this trie is not prefix-free |
| PrefixTree.CompressedInsertIgnoresKey | src/prefix_tree.rs:108-114 | insert into a compressed node gives the same result for any two keys |
| PrefixTree.CompressedInsertOverwritesOtherKey | src/prefix_tree.rs:108-114 | after inserting [0,1,1], inserting [0,2] displaces the value of [0,1,1] and overwrites it, and get([0,2]) panics |
| PrefixTree.ShorterKeyPanics | src/prefix_tree.rs:51-57 | after inserting [0,1,1], get([0,1]) slices past the key and panics |
| Trie.WalkAppend | src/trie/mod.rs:19-37 | walking p and then q from where p ended is the same as walking p + q |
| Trie.WalkStaysFailed | src/trie/mod.rs:27-33 | once a descent fails, every longer path fails too |
| Trie.InsertWalkSucceedsOnlyBySetValue | src/trie/mod.rs:95-115 | a successful default insert ends with a set_value that returned true and produced the final state |
| Trie.DefaultGetView | src/trie/mod.rs:19-37 | the loop returns the view the walk reaches, or None at the first failed descent |
| Trie.DefaultGet | src/trie/mod.rs:40-58 | the loop returns the value of the view reached, or None if some descent failed |
| Trie.DefaultInsert | src/trie/mod.rs:95-115 | the loop returns false at the first None from descend_or_add, and otherwise the result of set_value, with the state threaded through |
| TrieHash.NewValid | src/trie/hash.rs:63-69 | a new trie satisfies the arena invariant |
| TrieHash.NewIsEmpty | src/trie/hash.rs:63-69 | a new trie is valid, and both get and the default get find nothing at any path |
| TrieHash.Value | src/trie/hash.rs:179-203 | value is Some at the root exactly when the trie is Trivial, and a view with a value cannot be descended from |
| TrieHash.Descend | src/trie/hash.rs:205-237 | descend succeeds only on a Standard trie, giving the edge along the key; from the root it always succeeds with node 0, whether or not that edge exists |
| TrieHash.GetViewOf | src/trie/hash.rs:76-105 | get_view finds a view only for a non-empty path on a Standard trie, and that view is the edge along the path's last key |
| TrieHash.Lookup | src/trie/hash.rs:108-117 | a value get finds is the Leaf stored on the edge a non-empty path reaches |
| TrieHash.SetValueStep | src/trie/hash.rs:290-340 | when set_value returns true the view then holds the new value; when it returns false the trie is unchanged |
| TrieHash.DescendOrAddStep | src/trie/hash.rs:375-420 | descend_or_add never changes a Trivial trie; on a Standard trie it always returns a view, and that view is what descend finds from the same view in the new trie |
| TrieHash.InsertFrom | src/trie/hash.rs:124-143 | insert on a Trivial trie returns false and changes nothing; on a Standard trie it allocates at most one new id per key |
| TrieHash.OriginBelowNext | src/trie/hash.rs:392-402 | in a valid trie every edge leaves a node whose id is below next_id |
| TrieHash.FreshIdHasNoEdges | src/trie/hash.rs:396-402 | in a valid trie no edge leaves the node that next_id will name, so a new Branch starts without children |
| TrieHash.ViewAtOk | src/trie/hash.rs:205-237 | every view reachable by descending leaves the root or an existing branch |
| TrieHash.SetValueKeepsValid | src/trie/hash.rs:290-340 | set_value preserves the arena invariant |
| TrieHash.DescendOrAddKeepsValid | src/trie/hash.rs:375-420 | descend_or_add preserves the arena invariant and returns a view that leaves the root or a branch |
| TrieHash.ViewAtRoot | src/trie/hash.rs:205-237 | descending reaches the root view exactly for the empty path |
| TrieHash.ViewAtDistinct | src/trie/hash.rs:205-237 | in a valid trie, two different paths never reach the same view |
| TrieHash.ViewAtPrefix | src/trie/hash.rs:205-237 | if a path reaches a view, every proper prefix of it reaches a view that can be descended from |
| TrieHash.ViewAtDeadEnd | src/trie/hash.rs:219-235 | past a view that cannot be descended from, no longer path reaches a view |
| TrieHash.ViewAtStaysFailed | src/trie/hash.rs:96-102 | once a path fails to reach a view, so does every extension of it |
| TrieHash.SetLeafKeepsOtherNodes | src/trie/hash.rs:308-321 | storing a Leaf on the edge one path reaches leaves the node at every other path unchanged |
| TrieHash.CreatedBranchHasNoChildren | src/trie/hash.rs:396-402 | a Branch created with the fresh id next_id has no children: every path below it reaches no node, before or after the creation |
| TrieHash.CreateKeepsOtherNodes | src/trie/hash.rs:396-402 | storing a fresh Branch on the edge one path reaches leaves the node at every other path unchanged |
| TrieHash.SetValueSpec | src/trie/hash.rs:290-340 | set_value at the view a path reaches does what `InsertSpec` states for that path |
| TrieHash.DescendOrAddStepView | src/trie/hash.rs:375-420 | on a valid Standard trie, descend_or_add always succeeds, and the view it returns is the one the extended path reaches in the new trie |
| TrieHash.InsertFromSpec | src/trie/hash.rs:124-143 | insert continued from the view one path reaches meets `InsertSpec` for the whole path |
| TrieHash.InsertCorrect | src/trie/hash.rs:124-143 | on a valid trie insert meets `InsertSpec`: the invariant is kept; it succeeds iff the trie is Standard and either the path is empty and the map is empty, or the path does not lead to a Branch; a failure changes nothing; a success stores the value and leaves Branches on every shorter non-empty prefix; no path that is not a prefix of the inserted one sees its node change |
| TrieHash.TrivialInsertFails | src/trie/hash.rs:329-331 | on a Trivial trie insert fails and changes nothing, whatever the path |
| TrieHash.LookupByNode | src/trie/hash.rs:108-117 | on a non-empty path get returns the value of the Leaf the path reaches, and the default get agrees |
| TrieHash.TrivialLookupNone | src/trie/hash.rs:76-117 | get on a Trivial trie finds nothing, not even at the empty path |
| TrieHash.InsertThenGet | src/trie/hash.rs:427-442 | after a successful insert of a non-empty path, get of that path returns the new value |
| TrieHash.InsertKeepsOtherPaths | src/trie/hash.rs:124-143 | insert leaves get unchanged at every path that is not a prefix of the inserted one, and after a success the proper prefixes hold no value |
| TrieHash.InsertSucceedsIff | src/trie/hash.rs:123-143 | insert returns true exactly when the trie is Standard and either the path is empty and the map is empty, or the path does not lead to a Branch; a false return changes nothing |
| TrieHash.StoredPathsPrefixFree | src/trie/mod.rs:13-16 | below a path that holds a value, get finds nothing |
| TrieHash.InsertPrefixOfStoredFails | src/trie/hash.rs:124-143 | inserting a proper prefix of a stored path fails and changes nothing |
| TrieHash.ReinsertReplaces | src/trie/hash.rs:318-321 | inserting a stored path again succeeds, and get then returns the new value |
| TrieHash.TwoDisjointInserts | src/trie/hash.rs:444-471 | in a new trie, two inserts of paths where neither is a prefix of the other both succeed, and both values are found |
| TrieHash.EmptyPathStoredButUnreadable | src/trie/hash.rs:86-94 | inserting the empty path into a new trie succeeds and makes it Trivial, yet get of the empty path finds nothing |
| TrieHash.DefaultLookup | src/trie/mod.rs:40-58 | the default get agrees with the hash trie's get on every non-empty path, and on the empty path finds a value exactly when the trie is Trivial |
| TrieHash.InsertThenDefaultGet | src/trie/mod.rs:40-58 | with the default get, every successful insert can be read back, including the empty path |
| TrieHash.InsertExtensionDiscardsStored | src/trie/hash.rs:393-401 | inserting an extension of a stored path succeeds and discards the stored value |
| TrieHash.NothingStoredAboveView | src/trie/hash.rs:179-237 | no proper prefix of a path that reaches a view holds a value |
| TrieHash.CheckedInsertAgrees | src/trie/mod.rs:148-153 | when a proper prefix of the path holds a value the corrected insert returns false and changes nothing; otherwise it does what the original insert does |
| TrieHash.CheckedInsertKeepsStored | src/trie/mod.rs:88-91 | the corrected insert keeps the invariant; a failure changes nothing; a success stores the value and leaves every other path's value unchanged |
| TrieHash.CheckedInsertExtensionFails | src/trie/mod.rs:148-153 | the corrected insert refuses to extend a stored path and leaves the trie unchanged |
| TrieHash.ValueOnlyAtLeaf | src/trie/mod.rs:61-79 | value is Some exactly at a Leaf and returns its value, and a view with a value has no child |
| TrieHash.DescendOnlyFromBranch | src/trie/mod.rs:75-78 | descend succeeds exactly from a Branch, whether or not the Branch has the child |
| TrieHash.DescendReachesAbsentChild | src/trie/hash.rs:205-217 | against the documentation at src/trie/mod.rs:75-78, descend from the root of a new trie returns a view of the absent child (0, k), and get_view of [k] finds that view |
| TrieHash.SetValueContract | src/trie/mod.rs:134-141 | set_value overwrites a Leaf at an edge or creates a missing child as a Leaf, returning true in both cases; at a Branch it returns false and changes nothing, except that the root of an empty Standard trie becomes Trivial; on a Trivial trie it always returns false |
| TrieHash.DescendOrAddContract | src/trie/mod.rs:148-153 | descend_or_add from a Branch gives its child and changes nothing, and at a missing child it creates a Branch; differing from the documentation, it also replaces a Leaf at an edge and descends from the root of a Trivial trie; only a detached view gives None |
| TrieHash.ViewAtIsDefaultWalk | src/trie/hash.rs:96-102 | the hash trie's walk is the default get_view walk run with its descend |
| TrieHash.InsertFromIsDefaultInsert | src/trie/hash.rs:124-143 | the hash trie's insert is the default insert run with its descend_or_add and set_value |
| TrieHash.HashTrie.constructor | src/trie/hash.rs:63-69 | a new trie is Standard with no edges and next id 1, and it is valid |
| TrieHash.HashTrie.SetValue | src/trie/hash.rs:290-340 | the in-place update leaves exactly the state and result of `SetValueStep`, and keeps the arena invariant |
| TrieHash.HashTrie.DescendOrAdd | src/trie/hash.rs:375-420 | the in-place update leaves exactly the state and view of `DescendOrAddStep`, keeps the arena invariant, and returns a view that leaves the root or a branch |
| TrieHash.HashTrie.Insert | src/trie/hash.rs:124-143 | the loop leaves exactly the state and result of `InsertFrom`, meets `InsertSpec`, and keeps the arena invariant |
| TrieHash.HashTrie.GetView | src/trie/hash.rs:76-105 | returns None for the empty path; otherwise returns the view the walk from the root reaches, or None at the first failed descent |
| TrieHash.HashTrie.Get | src/trie/hash.rs:108-117 | returns the value at the view get_view finds, or None |

## Left out

- Node ids are unbounded. The model does not capture the `u32` `next_id` overflowing and panicking at `src/trie/hash.rs:402`.
- Lifetimes, borrows and the `KeyPair`/`HalfBorrowed` machinery of `src/trie/key_pair.rs` are not modelled. An edge is a plain pair.
- Hashing is not modelled. Maps are Dafny maps.
- `value_mut` (`src/trie/hash.rs:264-288`) is not a separate member. It selects the same value as `value`.
- The mutable `descend` (`src/trie/hash.rs:342-373`) is not a separate member. Its outcome equals the read-only `descend`, which `TrieHash.Descend` models.
- `into_value` and `into_value_mut`, and `as_view` / `as_view_mut`, only change the kind of reference. They are not modelled.
- The `HasView` and `HasViewMut` traits are not modelled. The default methods take the view operations as function parameters.
- `TrieHash.HashTrie` keeps the behaviour the source has. The corrected insert (`TrieHash.InsertFromChecked`) is a function beside it.
- `src/prefix_tree.rs` is modelled on values. `insert` returns the rewritten node instead of overwriting `*self`; the tree owns its children, so there is no aliasing to lose.
- PrefixTree.InsertKeepsOtherKeys: shorter keys are only guaranteed to keep their lookup or panic, because a newly created compressed node makes a shorter key panic.
- PrefixTree.InsertThenGet: stated only for keys `Routable` describes. Other keys end in a compressed node, where `insert` ignores the key.
- PrefixTree.InsertReturnsPrevious: stated only for keys `Routable` describes. For other keys the two can differ: after inserting [0,1,1], get([0,2]) panics, yet insert([0,2]) returns the value stored under [0,1,1].
- Tokenizer.Tokenize: bounded by `fuel` iterations, because as written the loop does not end whenever the first token is non-empty.
- The tokenizer works on characters. Byte offsets of UTF-8 text and the char-boundary panics of `str` slicing are not modelled.
- `Tokenizer::new` is the datatype constructor `Tokenizer.Tokenizer`.
- `src/main.rs`, `src/io_helpers.rs`, `src/bufread_iter.rs`, `src/macro_def.rs`, `src/expander.rs`, `src/builder.rs` and `src/trie/view.rs` are not part of this model. They are I/O and the macro layer built on top.

## Findings

| source | as written | input that shows it | evidently intended | confidence | as-written member | corrected member |
|---|---|---|---|---|---|---|
| src/tokenizer.rs:23 | the `remaining` bound in the loop shadows the outer one, so the outer one never advances | "a b" | each iteration reads the next token from what is left | not executed | TokenizerCorrected.TokenizeTwoWordsNeverFinishes | TokenizerCorrected.TokenizeCorrected |
| src/tokenizer.rs:50-73 | `token_end` and `separator_end` stay 0 when their scan runs out of input | "a " panics on the slice 1..0; "ab" gives the empty token and leaves "ab" unread | a bound its scan never set is the end of the input | not executed | TokenizerCorrected.ReadTokenEndOfInputDefects | TokenizerCorrected.ReadTokenCorrected |
| src/trie/hash.rs:86-94 | `get_view` returns None for the empty path | insert of [] into a new trie returns true and makes it Trivial, but get([]) is None | the empty path reads the root, as in the default `get` of src/trie/mod.rs | not executed | TrieHash.EmptyPathStoredButUnreadable | TrieHash.InsertThenDefaultGet |
| src/trie/hash.rs:393-401 | `descend_or_add` replaces any node that is not a Branch, including a Leaf, with a new Branch | insert [a] with w, then insert [a, b] with v: the second returns true, and get([a]) is None | None at a Leaf, as documented at src/trie/mod.rs:148-153, keeping the trie prefix-free without losing values | not executed | TrieHash.InsertExtensionDiscardsStored | TrieHash.CheckedInsertKeepsStored |
