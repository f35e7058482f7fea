/**
  Properties of the trie operations of `TrieSpec`: what a lookup returns
  after an insert or a delete, how the size moves, that pruning keeps every
  non-root node non-empty, what a subtree from `GetNext` holds, and that the
  key enumeration has one entry per stored key.
*/
module TrieLemmas {
  import opened Wrappers
  import opened TrieSpec

  // ---------------------------------------------------------------------
  // Sets of stored keys

  lemma PrefixedMember(k: Token, s: set<seq<Token>>, y: seq<Token>)
    ensures y in Prefixed(k, s) <==> |y| > 0 && y[0] == k && y[1..] in s
  {
    if |y| > 0 && y[0] == k && y[1..] in s {
      assert y == [k] + y[1..];
    }
    if y in Prefixed(k, s) {
      var x :| x in s && y == [k] + x;
      assert y[1..] == x;
    }
  }

  /** Putting one token in front of every key is injective. */
  lemma {:induction false} PrefixedCard(k: Token, s: set<seq<Token>>)
    ensures |Prefixed(k, s)| == |s|
    decreases s
  {
    if s == {} {
      assert Prefixed(k, s) == {};
    } else {
      var x :| x in s;
      PrefixedCard(k, s - {x});
      forall y ensures y in Prefixed(k, s) <==> y in Prefixed(k, s - {x}) + {[k] + x} {
        PrefixedMember(k, s, y);
        PrefixedMember(k, s - {x}, y);
        assert y == [k] + x ==> y[1..] == x;
      }
      assert Prefixed(k, s) == Prefixed(k, s - {x}) + {[k] + x};
      PrefixedMember(k, s - {x}, [k] + x);
      assert ([k] + x)[1..] == x;
    }
  }

  lemma OverMember(t: Tree, ks: set<Token>, y: seq<Token>)
    requires ks <= t.children.Keys
    ensures y in Over(t, ks) <==> |y| > 0 && y[0] in ks && y[1..] in StoredKeys(t.children[y[0]])
  {
    if |y| > 0 && y[0] in ks && y[1..] in StoredKeys(t.children[y[0]]) {
      assert y == [y[0]] + y[1..];
    }
    if y in Over(t, ks) {
      var k, x :| k in ks && x in StoredKeys(t.children[k]) && y == [k] + x;
      assert y[0] == k && y[1..] == x;
    }
  }

  /** The keys below the children named in `ks` split, disjointly, into
      those below child `k` and those below the others. */
  lemma OverSplit(t: Tree, ks: set<Token>, k: Token)
    requires ks <= t.children.Keys && k in ks
    ensures Over(t, ks) == Prefixed(k, StoredKeys(t.children[k])) + Over(t, ks - {k})
    ensures Prefixed(k, StoredKeys(t.children[k])) !! Over(t, ks - {k})
  {
    forall y
      ensures y in Over(t, ks) <==> y in Prefixed(k, StoredKeys(t.children[k])) + Over(t, ks - {k})
      ensures !(y in Prefixed(k, StoredKeys(t.children[k])) && y in Over(t, ks - {k}))
    {
      OverMember(t, ks, y);
      OverMember(t, ks - {k}, y);
      PrefixedMember(k, StoredKeys(t.children[k]), y);
    }
  }

  /** A key is stored exactly when the node it reaches is terminal. */
  lemma {:induction false} StoredMember(t: Tree, x: seq<Token>)
    ensures x in StoredKeys(t) <==> ValueAt(t, x).Some?
    decreases |x|
  {
    OverMember(t, t.children.Keys, x);
    if x != [] && x[0] in t.children {
      StoredMember(t.children[x[0]], x[1..]);
    }
  }

  /** `__len__` counts the stored keys. */
  lemma {:induction false} SizeIsCount(t: Tree)
    ensures Size(t) == |StoredKeys(t)|
    decreases t
  {
    SumOverIsCount(t, t.children.Keys);
    OverMember(t, t.children.Keys, []);
    var base: set<seq<Token>> := if t.value.Some? then {[]} else {};
    assert base !! Over(t, t.children.Keys);
    assert |base + Over(t, t.children.Keys)| == |base| + |Over(t, t.children.Keys)|;
  }

  lemma {:induction false} SumOverIsCount(t: Tree, ks: set<Token>)
    requires ks <= t.children.Keys
    ensures SumOver(t, ks) == |Over(t, ks)|
    decreases t, ks
  {
    if ks == {} {
      assert Over(t, ks) == {};
    } else {
      var k :| k in ks && SumOver(t, ks) == Size(t.children[k]) + SumOver(t, ks - {k});
      SizeIsCount(t.children[k]);
      SumOverIsCount(t, ks - {k});
      OverSplit(t, ks, k);
      PrefixedCard(k, StoredKeys(t.children[k]));
    }
  }

  /** `__len__` as its loop computes it: the node's own count plus the
      stored keys below each child. */
  lemma SizeByOver(t: Tree)
    ensures Size(t) == (if t.value.Some? then 1 else 0) + |Over(t, t.children.Keys)|
  {
    SumOverIsCount(t, t.children.Keys);
  }

  /** One more child visited adds that child's size. */
  lemma OverAdd(t: Tree, done: set<Token>, k: Token)
    requires done <= t.children.Keys && k in t.children && k !in done
    ensures |Over(t, done + {k})| == |Over(t, done)| + Size(t.children[k])
  {
    OverSplit(t, done + {k}, k);
    assert done + {k} - {k} == done;
    PrefixedCard(k, StoredKeys(t.children[k]));
    SizeIsCount(t.children[k]);
  }

  /** Moving one key from the unvisited to the visited set keeps the two
      a partition of `all`. */
  lemma Visit(todo: set<Token>, done: set<Token>, all: set<Token>, k: Token)
    requires todo + done == all && todo !! done && k in todo
    ensures (todo - {k}) + (done + {k}) == all && (todo - {k}) !! (done + {k})
  {
  }

  /** Appending the entries of one more child to the collected entries. */
  lemma Gather(result: seq<KeyEntry>, sub: seq<KeyEntry>,
               own: multiset<KeyEntry>, before: multiset<KeyEntry>, after: multiset<KeyEntry>)
    requires multiset(result) == own + before && after == multiset(sub) + before
    ensures multiset(result + sub) == own + after
  {
    assert multiset(result + sub) == multiset(result) + multiset(sub);
  }

  /** `Delete` once the child under the first token has been updated to
      `node`: the child is dropped when its size is zero. */
  lemma DeleteUnfold(t: Tree, key: seq<Token>, node: Tree)
    requires |key| > 0 && key[0] in t.children
    requires node == if |key| > 1 then Delete(t.children[key[0]], key[1..])
                     else Tree(t.children[key[0]].children, None)
    ensures var m := Tree(t.children[key[0] := node], t.value);
      Delete(t, key) == if Size(m.children[key[0]]) == 0
                        then Tree(m.children - {key[0]}, m.value) else m
  {
    var m := Tree(t.children[key[0] := node], t.value);
    assert m.children - {key[0]} == t.children - {key[0]};
  }

  /** Creating an empty child for the first token before inserting does not
      change the result of `Set`. */
  lemma SetAfterAdd(t: Tree, key: seq<Token>, w: Weight)
    requires |key| > 0 && key[0] !in t.children
    ensures Set(Tree(t.children[key[0] := Empty], t.value), key, w) == Set(t, key, w)
  {
    var u := Tree(t.children[key[0] := Empty], t.value);
    assert u.children[key[0] := Empty] == u.children;
  }

  /** A node of size zero stores nothing at or below it. */
  lemma SizeZero(t: Tree, y: seq<Token>)
    requires Size(t) == 0
    ensures ValueAt(t, y) == None
  {
    SizeIsCount(t);
    StoredMember(t, y);
  }

  // ---------------------------------------------------------------------
  // Paths

  lemma ValueAtCons(t: Tree, x: seq<Token>)
    requires |x| > 0
    ensures ValueAt(t, x) == if x[0] in t.children then ValueAt(t.children[x[0]], x[1..]) else None
  {
  }

  /** Following `p` and then `x` is following `p + x`. */
  lemma {:induction false} AtAppend(t: Tree, p: seq<Token>, x: seq<Token>)
    ensures At(t, p + x) == match At(t, p) case None => None case Some(n) => At(n, x)
    decreases |p|
  {
    if p == [] {
      assert p + x == x;
    } else {
      assert (p + x)[0] == p[0] && (p + x)[1..] == p[1..] + x;
      if p[0] in t.children {
        AtAppend(t.children[p[0]], p[1..], x);
      }
    }
  }

  /** For a non-empty prefix P with `GetNext(t, P) == Found(S)`, and any
      non-empty suffix X, `S[X]` succeeds exactly when `t[P + X]` does, with
      the same value. */
  lemma GetNextSubtree(t: Tree, p: seq<Token>, s: Tree, x: seq<Token>)
    requires |p| > 0 && |x| > 0
    requires GetNext(t, p) == Found(s)
    ensures Get(s, x).Found? <==> Get(t, p + x).Found?
    ensures Get(s, x).Found? ==> Get(s, x).value == Get(t, p + x).value
  {
    AtAppend(t, p, x);
  }

  // ---------------------------------------------------------------------
  // Insert

  lemma ValueAtEmpty(y: seq<Token>)
    ensures ValueAt(Empty, y) == None
  {
  }

  /** After `Set(t, k, w)` the key `k` holds `w`; every other key, the empty
      key included, keeps its value. */
  lemma {:induction false} ValueAtSet(t: Tree, k: seq<Token>, w: Weight, x: seq<Token>)
    requires |k| > 0
    ensures ValueAt(Set(t, k, w), x) == if x == k then Some(w) else ValueAt(t, x)
    decreases |k|
  {
    if x != [] {
      var head := k[0];
      var node := if head in t.children then t.children[head] else Empty;
      ValueAtCons(Set(t, k, w), x);
      ValueAtCons(t, x);
      ValueAtEmpty(x[1..]);
      if x[0] == head {
        assert x == k <==> x[1..] == k[1..] by {
          assert x == [x[0]] + x[1..] && k == [k[0]] + k[1..];
        }
        if |k| > 1 {
          ValueAtSet(node, k[1..], w, x[1..]);
        } else if x[1..] != [] {
          ValueAtCons(Tree(node.children, Some(w)), x[1..]);
          ValueAtCons(node, x[1..]);
        }
      }
    }
  }

  /** `t[K] = W` then `t[X]`: W when X is K, the old lookup otherwise. */
  lemma GetAfterSet(t: Tree, k: seq<Token>, w: Weight, x: seq<Token>)
    requires |k| > 0 && |x| > 0
    ensures Get(Set(t, k, w), x) == if x == k then Found(w) else Get(t, x)
  {
    ValueAtSet(t, k, w, x);
  }

  /** After one insert into an empty trie, no proper prefix of the key is
      contained: the nodes on the way exist but are not terminal. */
  lemma InteriorNotStored(k: seq<Token>, w: Weight, i: nat)
    requires 0 < i < |k|
    ensures Get(Set(Empty, k, w), k[..i]) == KeyError(k[..i])
  {
    ValueAtSet(Empty, k, w, k[..i]);
    ValueAtEmpty(k[..i]);
    assert |k[..i]| != |k|;
  }

  /** A second insert under the same key overwrites the first; inserting
      the same pair twice is the same as inserting it once. */
  lemma {:induction false} SetSetSame(t: Tree, k: seq<Token>, w1: Weight, w2: Weight)
    requires |k| > 0
    ensures Set(Set(t, k, w1), k, w2) == Set(t, k, w2)
    decreases |k|
  {
    var head := k[0];
    var node := if head in t.children then t.children[head] else Empty;
    if |k| > 1 {
      SetSetSame(node, k[1..], w1, w2);
    }
    var node1 := if |k| > 1 then Set(node, k[1..], w1) else Tree(node.children, Some(w1));
    var node2 := if |k| > 1 then Set(node1, k[1..], w2) else Tree(node1.children, Some(w2));
    assert node2 == if |k| > 1 then Set(node, k[1..], w2) else Tree(node.children, Some(w2));
    assert t.children[head := node1][head := node2] == t.children[head := node2];
  }

  lemma StoredAfterSet(t: Tree, k: seq<Token>, w: Weight)
    requires |k| > 0
    ensures StoredKeys(Set(t, k, w)) == StoredKeys(t) + {k}
  {
    forall x ensures x in StoredKeys(Set(t, k, w)) <==> x in StoredKeys(t) + {k} {
      StoredMember(Set(t, k, w), x);
      StoredMember(t, x);
      ValueAtSet(t, k, w, x);
    }
  }

  /** Inserting a new key raises `len` by one; re-inserting a stored key
      leaves it unchanged. */
  lemma SizeAfterSet(t: Tree, k: seq<Token>, w: Weight)
    requires |k| > 0
    ensures Size(Set(t, k, w)) == Size(t) + (if Get(t, k).Found? then 0 else 1)
  {
    StoredAfterSet(t, k, w);
    StoredMember(t, k);
    SizeIsCount(t);
    SizeIsCount(Set(t, k, w));
  }

  /** Insert keeps every non-root node non-empty. */
  lemma {:induction false} PrunedAfterSet(t: Tree, k: seq<Token>, w: Weight)
    requires |k| > 0 && Pruned(t)
    ensures Pruned(Set(t, k, w))
    decreases |k|
  {
    var head := k[0];
    var node := if head in t.children then t.children[head] else Empty;
    var node' := Set(t, k, w).children[head];
    if |k| > 1 {
      PrunedAfterSet(node, k[1..], w);
      ValueAtSet(node, k[1..], w, k[1..]);
      SizeIsCount(node');
      StoredMember(node', k[1..]);
    }
    assert Size(node') > 0 && Pruned(node');
    var r := Set(t, k, w);
    forall j | j in r.children
      ensures Size(r.children[j]) > 0 && Pruned(r.children[j])
    {
      if j != head {
        assert r.children[j] == t.children[j];
      }
    }
  }

  // ---------------------------------------------------------------------
  // Delete

  /** After `Delete(t, k)` the key `k` holds nothing; every other key keeps
      its value, pruned branches included, since they stored nothing. */
  lemma {:induction false} ValueAtDelete(t: Tree, k: seq<Token>, x: seq<Token>)
    requires |k| > 0
    ensures ValueAt(Delete(t, k), x) == if x == k then None else ValueAt(t, x)
    decreases |k|
  {
    var head := k[0];
    ValueAtCons(t, k);
    if x != [] && head in t.children {
      var node := t.children[head];
      var node' := if |k| > 1 then Delete(node, k[1..]) else Tree(node.children, None);
      forall y ensures ValueAt(node', y) == if y == k[1..] then None else ValueAt(node, y) {
        if |k| > 1 {
          ValueAtDelete(node, k[1..], y);
        } else if y != [] {
          ValueAtCons(node', y);
          ValueAtCons(node, y);
        }
      }
      ValueAtCons(Delete(t, k), x);
      ValueAtCons(t, x);
      if x[0] == head {
        assert x == k <==> x[1..] == k[1..] by {
          assert x == [x[0]] + x[1..] && k == [k[0]] + k[1..];
        }
        if Size(node') == 0 {
          SizeZero(node', x[1..]);
        }
      }
    }
  }

  /** `del t[K]` then `t[X]`: a `KeyError` when X is K, the old lookup
      otherwise. */
  lemma GetAfterDelete(t: Tree, k: seq<Token>, x: seq<Token>)
    requires |k| > 0 && |x| > 0
    ensures Get(Delete(t, k), x) == if x == k then KeyError(k) else Get(t, x)
  {
    ValueAtDelete(t, k, x);
  }

  lemma StoredAfterDelete(t: Tree, k: seq<Token>)
    requires |k| > 0
    ensures StoredKeys(Delete(t, k)) == StoredKeys(t) - {k}
  {
    forall x ensures x in StoredKeys(Delete(t, k)) <==> x in StoredKeys(t) - {k} {
      StoredMember(Delete(t, k), x);
      StoredMember(t, x);
      ValueAtDelete(t, k, x);
    }
  }

  /** Deleting a stored key lowers `len` by one; deleting an absent key
      leaves it unchanged. */
  lemma SizeAfterDelete(t: Tree, k: seq<Token>)
    requires |k| > 0
    ensures Size(Delete(t, k)) == Size(t) - (if Get(t, k).Found? then 1 else 0)
  {
    StoredAfterDelete(t, k);
    StoredMember(t, k);
    SizeIsCount(t);
    SizeIsCount(Delete(t, k));
  }

  /** Delete keeps every non-root node non-empty. */
  lemma {:induction false} PrunedAfterDelete(t: Tree, k: seq<Token>)
    requires |k| > 0 && Pruned(t)
    ensures Pruned(Delete(t, k))
    decreases |k|
  {
    var head := k[0];
    if head in t.children {
      var node := t.children[head];
      if |k| > 1 {
        PrunedAfterDelete(node, k[1..]);
      }
      var r := Delete(t, k);
      forall j | j in r.children
        ensures Size(r.children[j]) > 0 && Pruned(r.children[j])
      {
        if j != head {
          assert r.children[j] == t.children[j];
        }
      }
    }
  }

  /** On a pruned trie, deleting leaves the trie as it was exactly when the
      key was not stored: an absent key is a silent no-op. */
  lemma {:induction false} DeleteAbsent(t: Tree, k: seq<Token>)
    requires |k| > 0 && Pruned(t)
    ensures Delete(t, k) == t <==> !Get(t, k).Found?
    decreases |k|
  {
    if Get(t, k).Found? {
      ValueAtDelete(t, k, k);
    } else {
      var head := k[0];
      ValueAtCons(t, k);
      if head in t.children {
        var node := t.children[head];
        if |k| > 1 {
          DeleteAbsent(node, k[1..]);
        } else {
          assert At(node, k[1..]) == Some(node);
        }
        assert t.children[head := node] == t.children;
      }
    }
  }

  // ---------------------------------------------------------------------
  // The pruning invariant and prefix navigation

  /** On a pruned trie, every node reached by a non-empty path has a
      positive size and is pruned itself. */
  lemma {:induction false} PrunedAt(t: Tree, p: seq<Token>, n: Tree)
    requires Pruned(t) && |p| > 0 && At(t, p) == Some(n)
    ensures Size(n) > 0 && Pruned(n)
    decreases |p|
  {
    if |p| > 1 {
      PrunedAt(t.children[p[0]], p[1..], n);
    } else {
      assert At(t.children[p[0]], p[1..]) == Some(t.children[p[0]]);
    }
  }

  /** On a pruned trie, a node reached by `get_next(P)` has a stored key
      at or below it. */
  lemma PrunedReached(t: Tree, p: seq<Token>)
    requires Pruned(t) && |p| > 0 && GetNext(t, p).Found?
    ensures exists x :: x in StoredKeys(t) && p <= x
  {
    var n := GetNext(t, p).value;
    PrunedAt(t, p, n);
    SizeIsCount(n);
    var y :| y in StoredKeys(n);
    StoredMember(n, y);
    AtAppend(t, p, y);
    StoredMember(t, p + y);
    assert p + y in StoredKeys(t) && p <= p + y;
  }

  /** Every prefix of a stored key leads `get_next` to a node. */
  lemma PrefixReached(t: Tree, p: seq<Token>, x: seq<Token>)
    requires |p| > 0 && x in StoredKeys(t) && p <= x
    ensures GetNext(t, p).Found?
  {
    StoredMember(t, x);
    AtAppend(t, p, x[|p|..]);
    assert p + x[|p|..] == x;
  }

  /** On a pruned trie, `get_next(P)` succeeds exactly when some stored key
      starts with P. */
  lemma PrunedPrefix(t: Tree, p: seq<Token>)
    requires Pruned(t) && |p| > 0
    ensures GetNext(t, p).Found? <==> exists x :: x in StoredKeys(t) && p <= x
  {
    if GetNext(t, p).Found? {
      PrunedReached(t, p);
    }
    if exists x :: x in StoredKeys(t) && p <= x {
      var x :| x in StoredKeys(t) && p <= x;
      PrefixReached(t, p, x);
    }
  }

  // ---------------------------------------------------------------------
  // Key enumeration

  /** The entries of the children named in `ks` do not depend on the order
      in which the children are visited. */
  lemma {:induction false} KeysOverPick(t: Tree, p: seq<Token>, ks: set<Token>, k: Token)
    requires ks <= t.children.Keys && k in ks
    ensures KeysOver(t, p, ks) == KeysOf(t.children[k], p + [k]) + KeysOver(t, p, ks - {k})
    decreases ks
  {
    var j :| j in ks && KeysOver(t, p, ks) == KeysOf(t.children[j], p + [j]) + KeysOver(t, p, ks - {j});
    if j != k {
      KeysOverPick(t, p, ks - {j}, k);
      KeysOverPick(t, p, ks - {k}, j);
      assert ks - {j} - {k} == ks - {k} - {j};
    }
  }

  /** One more child visited adds that child's entries. */
  lemma KeysOverAdd(t: Tree, p: seq<Token>, done: set<Token>, k: Token)
    requires done <= t.children.Keys && k in t.children && k !in done
    ensures KeysOver(t, p, done + {k}) == KeysOf(t.children[k], p + [k]) + KeysOver(t, p, done)
  {
    KeysOverPick(t, p, done + {k}, k);
    assert done + {k} - {k} == done;
  }

  lemma MatchingUnion(a: set<seq<Token>>, b: set<seq<Token>>, p: seq<Token>, e: KeyEntry)
    ensures Matching(a + b, p, e) == Matching(a, p, e) + Matching(b, p, e)
  {
  }

  lemma MatchingPrefixed(k: Token, s: set<seq<Token>>, p: seq<Token>, e: KeyEntry)
    ensures Matching(Prefixed(k, s), p, e) == Prefixed(k, Matching(s, p + [k], e))
  {
    forall y ensures y in Matching(Prefixed(k, s), p, e) <==> y in Prefixed(k, Matching(s, p + [k], e)) {
      PrefixedMember(k, s, y);
      PrefixedMember(k, Matching(s, p + [k], e), y);
      if |y| > 0 && y[0] == k {
        assert p + y == (p + [k]) + y[1..] by {
          assert y == [k] + y[1..];
        }
      }
    }
  }

  /** `keys(prefix)` holds entry `e` as many times as there are stored keys
      whose entry after `prefix` is `e`: one entry per terminal node. */
  lemma {:induction false} KeysOfCount(t: Tree, p: seq<Token>, e: KeyEntry)
    ensures KeysOf(t, p)[e] == |Matching(StoredKeys(t), p, e)|
    decreases t
  {
    var base: set<seq<Token>> := if t.value.Some? then {[]} else {};
    var over := Over(t, t.children.Keys);
    KeysOverCount(t, p, t.children.Keys, e);
    MatchingUnion(base, over, p, e);
    MatchingRoot(t, p, e);
    var a := Matching(base, p, e);
    var b := Matching(over, p, e);
    assert a !! b;
    assert |a + b| == |a| + |b|;
  }

  /** The root contributes its own entry, and only when it is terminal. */
  lemma MatchingRoot(t: Tree, p: seq<Token>, e: KeyEntry)
    ensures var base: set<seq<Token>> := if t.value.Some? then {[]} else {};
      && |Matching(base, p, e)| == (if t.value.Some? then multiset{Render(p)} else multiset{})[e]
      && Matching(base, p, e) !! Matching(Over(t, t.children.Keys), p, e)
  {
    OverMember(t, t.children.Keys, []);
    assert p + [] == p;
    var base: set<seq<Token>> := if t.value.Some? then {[]} else {};
    assert Matching(base, p, e) == if t.value.Some? && Render(p) == e then {[]} else {};
  }

  lemma {:induction false} KeysOverCount(t: Tree, p: seq<Token>, ks: set<Token>, e: KeyEntry)
    requires ks <= t.children.Keys
    ensures KeysOver(t, p, ks)[e] == |Matching(Over(t, ks), p, e)|
    decreases t, ks
  {
    if ks == {} {
      assert Over(t, ks) == {};
      assert Matching(Over(t, ks), p, e) == {};
    } else {
      var k :| k in ks && KeysOver(t, p, ks) == KeysOf(t.children[k], p + [k]) + KeysOver(t, p, ks - {k});
      var here := StoredKeys(t.children[k]);
      KeysOfCount(t.children[k], p + [k], e);
      KeysOverCount(t, p, ks - {k}, e);
      OverSplit(t, ks, k);
      MatchingUnion(Prefixed(k, here), Over(t, ks - {k}), p, e);
      MatchingPrefixed(k, here, p, e);
      PrefixedCard(k, Matching(here, p + [k], e));
      var a := Matching(Prefixed(k, here), p, e);
      var b := Matching(Over(t, ks - {k}), p, e);
      assert a !! b;
      assert |a + b| == |a| + |b|;
    }
  }

  /** `keys(prefix)` has as many entries as `len` counts. */
  lemma {:induction false} KeysOfCard(t: Tree, p: seq<Token>)
    ensures |KeysOf(t, p)| == Size(t)
    decreases t
  {
    SizeIsCount(t);
    KeysOverCard(t, p, t.children.Keys);
    OverMember(t, t.children.Keys, []);
    var base: set<seq<Token>> := if t.value.Some? then {[]} else {};
    assert base !! Over(t, t.children.Keys);
    assert |base + Over(t, t.children.Keys)| == |base| + |Over(t, t.children.Keys)|;
  }

  lemma {:induction false} KeysOverCard(t: Tree, p: seq<Token>, ks: set<Token>)
    requires ks <= t.children.Keys
    ensures |KeysOver(t, p, ks)| == |Over(t, ks)|
    decreases t, ks
  {
    if ks == {} {
      assert Over(t, ks) == {};
    } else {
      var k :| k in ks && KeysOver(t, p, ks) == KeysOf(t.children[k], p + [k]) + KeysOver(t, p, ks - {k});
      KeysOfCard(t.children[k], p + [k]);
      SizeIsCount(t.children[k]);
      KeysOverCard(t, p, ks - {k});
      OverSplit(t, ks, k);
      PrefixedCard(k, StoredKeys(t.children[k]));
    }
  }

  /** An entry occurs in `keys(prefix)` exactly when some stored key
      renders to it. */
  lemma KeysMember(t: Tree, p: seq<Token>, e: KeyEntry)
    ensures e in KeysOf(t, p) <==> exists x :: x in StoredKeys(t) && Render(p + x) == e
  {
    KeysOfCount(t, p, e);
    if exists x :: x in StoredKeys(t) && Render(p + x) == e {
      var x :| x in StoredKeys(t) && Render(p + x) == e;
      assert x in Matching(StoredKeys(t), p, e);
    }
    if e in KeysOf(t, p) {
      var x :| x in Matching(StoredKeys(t), p, e);
    }
  }
}
