/**
  The abstract value of a trie node and the operations of `scripts/trie.py`
  as functions over it.

  A node holds a dictionary from a token to a child node and an optional
  value; a node whose value is present ends a stored key.  The functions
  below follow the branches of the Python methods of the same purpose; the
  class in `trie.dfy` is proved to compute them.
*/
module TrieSpec {
  import opened Wrappers

  /** A token is one character (unigram mode) or one word (n-gram mode). */
  type Token = string

  /** A weight is an opaque string; it is never parsed. */
  type Weight = string

  /** The outcome of a lookup: the value found, or Python's `KeyError`
      carrying the key that was asked for. */
  datatype Lookup<+T> = Found(value: T) | KeyError(key: seq<Token>)

  /** One node: the `path` dictionary and the value, `None` when the
      node's `value_valid` flag is false. */
  datatype Tree = Tree(children: map<Token, Tree>, value: Option<Weight>)

  /** One entry of `keys()`: the tokens joined into one string when every
      token is at most two characters long, else the token list itself. */
  datatype KeyEntry = Joined(text: string) | Tokens(tokens: seq<Token>)

  /** A freshly constructed node: no children, no value. */
  const Empty: Tree := Tree(map[], None)

  // ---------------------------------------------------------------------
  // Reference definitions

  /** The node reached from `t` by following `key`, if every token of it is
      present; the empty key reaches `t` itself. */
  function At(t: Tree, key: seq<Token>): Option<Tree>
    decreases |key|
  {
    if key == [] then Some(t)
    else if key[0] in t.children then At(t.children[key[0]], key[1..])
    else None
  }

  /** The value stored under `key`: present exactly when the node reached by
      `key` exists and is terminal. */
  function ValueAt(t: Tree, key: seq<Token>): Option<Weight>
  {
    match At(t, key)
    case None => None
    case Some(n) => n.value
  }

  /** The keys stored at or below `t`, relative to `t`. */
  ghost function StoredKeys(t: Tree): set<seq<Token>>
    decreases t
  {
    (if t.value.Some? then {[]} else {}) + Over(t, t.children.Keys)
  }

  /** The keys stored below the children of `t` named in `ks`, each prefixed
      by the token of its child. */
  ghost function Over(t: Tree, ks: set<Token>): set<seq<Token>>
    requires ks <= t.children.Keys
    decreases t, ks
  {
    set k, x | k in ks && x in StoredKeys(t.children[k]) :: [k] + x
  }

  /** Every key of `s` with `k` put in front. */
  function Prefixed(k: Token, s: set<seq<Token>>): set<seq<Token>>
  {
    set x | x in s :: [k] + x
  }

  // ---------------------------------------------------------------------
  // The operations of the source

  /** `__getitem__`: descend along `key`; a missing token or a non-terminal
      end node is a `KeyError` for the whole key. */
  function Get(t: Tree, key: seq<Token>): (r: Lookup<Weight>)
    requires |key| > 0
    ensures r.KeyError? ==> r.key == key
    ensures r.Found? <==> ValueAt(t, key).Some?
    ensures r.Found? ==> ValueAt(t, key) == Some(r.value)
    decreases |key|
  {
    var head := key[0];
    if head !in t.children then KeyError(key)
    else
      var node := t.children[head];
      if |key| > 1 then
        match Get(node, key[1..])
        case Found(v) => Found(v)
        case KeyError(_) => KeyError(key)
      else
        assert At(node, key[1..]) == Some(node);
        if node.value.Some? then Found(node.value.value) else KeyError(key)
  }

  /** `get_next`: the subtree reached by a non-empty prefix, or a `KeyError`
      when a token of the prefix is missing. */
  function GetNext(t: Tree, prefix: seq<Token>): (r: Lookup<Tree>)
    requires |prefix| > 0
    ensures r.KeyError? ==> r.key == prefix
    ensures r.Found? <==> At(t, prefix).Some?
    ensures r.Found? ==> At(t, prefix) == Some(r.value)
    decreases |prefix|
  {
    var head := prefix[0];
    if head !in t.children then KeyError(prefix)
    else
      var node := t.children[head];
      if |prefix| > 1 then
        match GetNext(node, prefix[1..])
        case Found(n) => Found(n)
        case KeyError(_) => KeyError(prefix)
      else
        assert At(node, prefix[1..]) == Some(node);
        Found(node)
  }

  /** `__setitem__`: create the child for the first token if it is missing,
      then either recurse with the rest of the key or mark the child
      terminal with the new value. */
  function Set(t: Tree, key: seq<Token>, w: Weight): (r: Tree)
    requires |key| > 0
    ensures r.value == t.value
    ensures r.children.Keys == t.children.Keys + {key[0]}
    decreases |key|
  {
    var head := key[0];
    var node := if head in t.children then t.children[head] else Empty;
    var node' := if |key| > 1 then Set(node, key[1..], w) else Tree(node.children, Some(w));
    Tree(t.children[head := node'], t.value)
  }

  /** `__delitem__`: nothing happens when the first token is missing;
      otherwise recurse or clear the child's value, then drop the child if
      its size has become zero. */
  ghost function Delete(t: Tree, key: seq<Token>): (r: Tree)
    requires |key| > 0
    ensures r.value == t.value
    ensures r.children.Keys <= t.children.Keys
    ensures key[0] !in t.children ==> r == t
    decreases |key|
  {
    var head := key[0];
    if head !in t.children then t
    else
      var node := t.children[head];
      var node' := if |key| > 1 then Delete(node, key[1..]) else Tree(node.children, None);
      if Size(node') == 0 then Tree(t.children - {head}, t.value)
      else Tree(t.children[head := node'], t.value)
  }

  /** `__len__`: one for a terminal node plus the sizes of all children. */
  ghost function Size(t: Tree): (n: nat)
    ensures t.value.Some? ==> n > 0
    decreases t
  {
    (if t.value.Some? then 1 else 0) + SumOver(t, t.children.Keys)
  }

  /** The sum of the sizes of the children of `t` named in `ks`, taken in
      no particular order. */
  ghost function SumOver(t: Tree, ks: set<Token>): nat
    requires ks <= t.children.Keys
    decreases t, ks
  {
    if ks == {} then 0
    else
      var k :| k in ks;
      Size(t.children[k]) + SumOver(t, ks - {k})
  }

  /** No node below the root has size zero: emptied children are removed
      from their parent's dictionary. */
  ghost predicate Pruned(t: Tree)
    decreases t
  {
    forall k | k in t.children :: Size(t.children[k]) > 0 && Pruned(t.children[k])
  }

  // ---------------------------------------------------------------------
  // Key enumeration

  /** The tokens of `key` concatenated in order. */
  function Concat(key: seq<Token>): string
  {
    if key == [] then "" else Concat(key[..|key| - 1]) + key[|key| - 1]
  }

  /** True when every token is at most two characters long. */
  predicate AllShort(key: seq<Token>)
  {
    forall i | 0 <= i < |key| :: |key[i]| <= 2
  }

  /** How `keys()` reports one stored key. */
  function Render(key: seq<Token>): (e: KeyEntry)
    ensures e.Joined? <==> forall i | 0 <= i < |key| :: |key[i]| <= 2
    ensures e.Tokens? ==> e.tokens == key
  {
    if AllShort(key) then Joined(Concat(key)) else Tokens(key)
  }

  /** `keys(prefix)`: one entry for this node when it is terminal, then the
      entries of every child with its token appended to the prefix; the
      dictionary's iteration order is not modelled, so the result is a
      multiset. */
  ghost function KeysOf(t: Tree, prefix: seq<Token>): (m: multiset<KeyEntry>)
    ensures t.value.Some? ==> Render(prefix) in m
    decreases t
  {
    (if t.value.Some? then multiset{Render(prefix)} else multiset{})
    + KeysOver(t, prefix, t.children.Keys)
  }

  /** The entries of the children of `t` named in `ks`. */
  ghost function KeysOver(t: Tree, prefix: seq<Token>, ks: set<Token>): multiset<KeyEntry>
    requires ks <= t.children.Keys
    decreases t, ks
  {
    if ks == {} then multiset{}
    else
      var k :| k in ks;
      KeysOf(t.children[k], prefix + [k]) + KeysOver(t, prefix, ks - {k})
  }

  /** The stored keys whose entry, after `prefix`, is `e`. */
  ghost function Matching(s: set<seq<Token>>, prefix: seq<Token>, e: KeyEntry): set<seq<Token>>
  {
    set x | x in s && Render(prefix + x) == e
  }
}
