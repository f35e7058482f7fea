/**
  The `Trie` class of `scripts/trie.py`: each node owns a dictionary
  `path` from a token to a child node, a `value` and a `valueValid` flag.
  Insert and delete update these fields in place, creating nodes lazily and
  dropping children whose size has become zero.

  Every node carries two ghost fields: `Model`, its abstract value as a
  `TrieSpec.Tree`, and `Repr`, the set of nodes it owns.  `Valid()` ties the
  fields to `Model` and keeps the children's footprints disjoint, so that
  each operation can be stated as the `TrieSpec` function it computes.
*/
module Tries {
  import opened Wrappers
  import opened TrieSpec
  import TrieLemmas

  class Trie {
    var path: map<Token, Trie>
    var value: Option<Weight>
    var valueValid: bool

    ghost var Model: Tree
    ghost var Repr: set<object>

    /** The object invariant: the fields agree with `Model`, every child is
        a valid node owned by this one, and no two children share a node. */
    ghost predicate Valid()
      reads this, Repr
      decreases Repr
    {
      && this in Repr
      && (valueValid <==> value.Some?)
      && Model.value == value
      && Model.children.Keys == path.Keys
      && (forall k | k in path ::
            && path[k] in Repr
            && path[k].Repr <= Repr
            && this !in path[k].Repr
            && path[k].Valid()
            && path[k].Model == Model.children[k])
      && (forall k, j | k in path && j in path && k != j :: path[k].Repr !! path[j].Repr)
    }

    /** `__init__`: an empty node. */
    constructor ()
      ensures Valid() && fresh(Repr)
      ensures Model == Empty
    {
      path := map[];
      value := None;
      valueValid := false;
      Model := Empty;
      Repr := {this};
    }

    /** Lines 81-83 of `__setitem__`: a fresh empty child stored under
        `head`, which had none. */
    method AddChild(head: Token) returns (node: Trie)
      requires Valid() && head !in path
      modifies this
      ensures Valid() && fresh(node) && fresh(node.Repr)
      ensures node.Valid() && node.Model == Empty && this !in node.Repr
      ensures path == old(path)[head := node] && Repr == old(Repr) + node.Repr
      ensures Model == Tree(old(Model).children[head := Empty], old(Model).value)
    {
      node := new Trie();
      path := path[head := node];
      Repr := Repr + node.Repr;
      Model := Tree(Model.children[head := Empty], Model.value);
    }

    /** Lines 89-90 of `__setitem__`: this node now ends a stored key with
        value `w`. */
    method MarkStored(w: Weight)
      requires Valid()
      modifies this
      ensures Valid() && Repr == old(Repr)
      ensures Model == Tree(old(Model).children, Some(w))
    {
      value := Some(w);
      valueValid := true;
      Model := Tree(Model.children, Some(w));
    }

    /** Lines 100-101 of `__delitem__`: this node no longer ends a stored
        key. */
    method ClearStored()
      requires Valid()
      modifies this
      ensures Valid() && Repr == old(Repr)
      ensures Model == Tree(old(Model).children, None)
    {
      valueValid := false;
      value := None;
      Model := Tree(Model.children, None);
    }

    /** Line 103 of `__delitem__`: drop the child stored under `head`. */
    method RemoveChild(head: Token)
      requires Valid() && head in path
      modifies this
      ensures Valid() && Repr <= old(Repr)
      ensures path == old(path) - {head}
      ensures Model == Tree(old(Model).children - {head}, old(Model).value)
    {
      ghost var gone := path[head].Repr;
      path := path - {head};
      Repr, Model := Repr - gone, Tree(Model.children - {head}, Model.value);
      forall k | k in path
        ensures path[k].Valid() && path[k].Repr == old(path[k].Repr) && path[k].Model == old(path[k].Model)
      {
        StaysValid(path[k]);
      }
    }

    /** A node none of whose objects changed is still valid and keeps its
        abstract value. */
    twostate lemma StaysValid(c: Trie)
      requires old(c.Valid()) && unchanged(old(c.Repr))
      ensures c.Valid() && c.Repr == old(c.Repr) && c.Model == old(c.Model)
    {
    }

    /** After the child under `head` was updated in place, the ghost fields
        of this node take in its new footprint and abstract value; `base`
        is the abstract value from before, for the other children. */
    ghost method Rejoin(head: Token, node: Trie, base: Tree)
      requires this in Repr && (valueValid <==> value.Some?) && base.value == value
      requires path.Keys == base.children.Keys + {head}
      requires head in path && path[head] == node && node.Valid() && this !in node.Repr
      requires forall k | k in path && k != head ::
        && path[k] in Repr && path[k].Repr <= Repr && this !in path[k].Repr
        && path[k].Valid() && path[k].Model == base.children[k] && path[k].Repr !! node.Repr
      requires forall k, j | k in path && j in path && k != j && k != head && j != head ::
        path[k].Repr !! path[j].Repr
      modifies this
      ensures Valid()
      ensures Model == Tree(base.children[head := node.Model], base.value)
      ensures Repr == old(Repr) + node.Repr
      ensures path == old(path)
    {
      Repr := Repr + node.Repr;
      Model := Tree(base.children[head := node.Model], base.value);
      StaysValid(node);
      forall k | k in path && k != head
        ensures path[k].Valid() && path[k].Model == Model.children[k]
      {
        StaysValid(path[k]);
      }
      forall k, j | k in path && j in path && k != j
        ensures path[k].Repr !! path[j].Repr
      {
        if k != head && j != head {
        } else if k == head {
          assert path[j].Repr !! node.Repr;
        } else {
          assert path[k].Repr !! node.Repr;
        }
      }
    }

    /** `__setitem__`: `t[key] = w` for a non-empty key.  The child for
        the first token is created when missing. */
    method Set(key: seq<Token>, w: Weight)
      requires Valid() && |key| > 0
      modifies Repr
      ensures Valid() && fresh(Repr - old(Repr))
      ensures Model == TrieSpec.Set(old(Model), key, w)
      decreases |key|, 1
    {
      var head := key[0];
      var node: Trie;
      if head in path {
        node := path[head];
      } else {
        TrieLemmas.SetAfterAdd(Model, key, w);
        node := AddChild(head);
      }
      SetInChild(key, w, node);
    }

    /** Lines 85-90 of `__setitem__`: recurse into `node`, the child for
        the first token, or mark it terminal. */
    method SetInChild(key: seq<Token>, w: Weight, node: Trie)
      requires Valid() && |key| > 0 && key[0] in path && path[key[0]] == node
      modifies Repr
      ensures Valid() && fresh(Repr - old(Repr))
      ensures Model == TrieSpec.Set(old(Model), key, w)
      decreases |key|, 0
    {
      ghost var base := Model;
      var head := key[0];
      label mid:
      if |key| > 1 {
        node.Set(key[1..], w);
      } else {
        node.MarkStored(w);
      }
      forall k | k in path && k != head
        ensures path[k].Valid() && path[k].Repr == old@mid(path[k].Repr)
        ensures path[k].Model == old@mid(path[k].Model)
      {
        StaysValid@mid(path[k]);
      }
      Rejoin(head, node, base);
    }

    /** `__delitem__`: `del t[key]` for a non-empty key; an absent key
        changes nothing and raises nothing.  A child whose size has become
        zero is dropped. */
    method Delete(key: seq<Token>)
      requires Valid() && |key| > 0
      modifies Repr
      ensures Valid() && Repr <= old(Repr)
      ensures Model == TrieSpec.Delete(old(Model), key)
      decreases |key|, 1
    {
      var head := key[0];
      if head in path {
        var node := path[head];
        ghost var t := Model;
        DeleteInChild(key, node);
        TrieLemmas.DeleteUnfold(t, key, node.Model);
        Prune(head);
      }
    }

    /** Lines 102-103 of `__delitem__`: drop the child under `head` when
        its size is zero. */
    method Prune(head: Token)
      requires Valid() && head in path
      modifies this
      ensures Valid() && Repr <= old(Repr)
      ensures Model == if Size(old(Model).children[head]) == 0
                       then Tree(old(Model).children - {head}, old(Model).value)
                       else old(Model)
    {
      var n := path[head].Len();
      if n == 0 {
        RemoveChild(head);
      }
    }

    /** Lines 96-101 of `__delitem__`: recurse into `node`, the child for
        the first token, or clear its value. */
    method DeleteInChild(key: seq<Token>, node: Trie)
      requires Valid() && |key| > 0 && key[0] in path && path[key[0]] == node
      modifies Repr
      ensures Valid() && Repr <= old(Repr) && path == old(path) && node.Valid()
      ensures node.Model == if |key| > 1 then TrieSpec.Delete(old(node.Model), key[1..])
                            else Tree(old(node.Model).children, None)
      ensures Model == Tree(old(Model).children[key[0] := node.Model], old(Model).value)
      decreases |key|, 0
    {
      ghost var base := Model;
      var head := key[0];
      label mid:
      if |key| > 1 {
        node.Delete(key[1..]);
      } else {
        node.ClearStored();
      }
      forall k | k in path && k != head
        ensures path[k].Valid() && path[k].Repr == old@mid(path[k].Repr)
        ensures path[k].Model == old@mid(path[k].Model)
      {
        StaysValid@mid(path[k]);
      }
      Rejoin(head, node, base);
    }

    /** `__getitem__`: `t[key]` for a non-empty key. */
    function Get(key: seq<Token>): (r: Lookup<Weight>)
      reads this, Repr
      requires Valid() && |key| > 0
      ensures r == TrieSpec.Get(Model, key)
      decreases |key|
    {
      var head := key[0];
      if head !in path then KeyError(key)
      else
        var node := path[head];
        assert node.Valid() && node.Model == Model.children[head];
        if |key| > 1 then
          match node.Get(key[1..])
          case Found(v) => Found(v)
          case KeyError(_) => KeyError(key)
        else if node.valueValid then Found(node.value.value)
        else KeyError(key)
    }

    /** `__contains__`: `key in t`, true exactly when `t[key]` succeeds. */
    function Contains(key: seq<Token>): (b: bool)
      reads this, Repr
      requires Valid() && |key| > 0
      ensures b <==> TrieSpec.Get(Model, key).Found?
      ensures b <==> key in StoredKeys(Model)
    {
      TrieLemmas.StoredMember(Model, key);
      Get(key).Found?
    }

    /** `__len__`: the number of terminal nodes at or below this one, summed
        over the children in the dictionary's (unspecified) order. */
    method Len() returns (n: nat)
      requires Valid()
      ensures n == Size(Model)
      decreases Repr
    {
      n := if valueValid then 1 else 0;
      label pre:
      var kids := path;
      ghost var m := Model;
      var todo := kids.Keys;
      ghost var done: set<Token> := {};
      while todo != {}
        invariant todo + done == m.children.Keys && todo !! done
        invariant n == (if m.value.Some? then 1 else 0) + |Over(m, done)|
        decreases todo
      {
        var k :| k in todo;
        StaysValid@pre(kids[k]);
        var c := kids[k].Len();
        TrieLemmas.OverAdd(m, done, k);
        TrieLemmas.Visit(todo, done, m.children.Keys, k);
        n := n + c;
        todo := todo - {k};
        done := done + {k};
      }
      TrieLemmas.SizeByOver(Model);
    }

    /** `keys(prefix)`: one entry per terminal node at or below this one,
        each built from `prefix` and the tokens leading to the node. */
    method Keys(prefix: seq<Token>) returns (result: seq<KeyEntry>)
      requires Valid()
      ensures multiset(result) == KeysOf(Model, prefix)
      decreases Repr
    {
      result := [];
      if valueValid {
        var entry := Reconstruct(prefix);
        result := result + [entry];
      }
      label pre:
      var kids := path;
      ghost var m := Model;
      ghost var own := multiset(result);
      var todo := kids.Keys;
      ghost var done: set<Token> := {};
      while todo != {}
        invariant todo + done == m.children.Keys && todo !! done
        invariant multiset(result) == own + KeysOver(m, prefix, done)
        decreases todo
      {
        var k :| k in todo;
        StaysValid@pre(kids[k]);
        var sub := kids[k].Keys(prefix + [k]);
        TrieLemmas.KeysOverAdd(m, prefix, done, k);
        TrieLemmas.Gather(result, sub, own, KeysOver(m, prefix, done), KeysOver(m, prefix, done + {k}));
        TrieLemmas.Visit(todo, done, m.children.Keys, k);
        result := result + sub;
        todo := todo - {k};
        done := done + {k};
      }
    }

    /** `get_next(prefix)`: the node reached by a non-empty prefix, or a
        `KeyError` when a token of it is missing. */
    function GetNext(prefix: seq<Token>): (r: Lookup<Trie>)
      reads this, Repr
      requires Valid() && |prefix| > 0
      ensures r.KeyError? <==> TrieSpec.GetNext(Model, prefix).KeyError?
      ensures r.KeyError? ==> r.key == prefix
      ensures r.Found? ==>
        && r.value in Repr && r.value.Repr <= Repr && r.value.Valid()
        && r.value.Model == TrieSpec.GetNext(Model, prefix).value
      decreases |prefix|
    {
      var head := prefix[0];
      if head !in path then KeyError(prefix)
      else
        var node := path[head];
        if |prefix| > 1 then
          match node.GetNext(prefix[1..])
          case Found(n) => Found(n)
          case KeyError(_) => KeyError(prefix)
        else Found(node)
    }

    /** `get_predictions(tokens)`: the (token, child) pairs of the node that
        `tokens` reaches, or none when it reaches no node.  The source sorts
        them by comparing the child objects themselves, an order that cannot
        be specified, so the pairs come in no particular order here, and
        `numCandidates` is accepted and ignored as in the source. */
    method GetPredictions(tokens: seq<Token>, numCandidates: nat) returns (r: seq<(Token, Trie)>)
      requires Valid() && |tokens| > 0
      ensures TrieSpec.GetNext(Model, tokens).KeyError? ==> r == []
      ensures TrieSpec.GetNext(Model, tokens).Found? ==>
        var n := TrieSpec.GetNext(Model, tokens).value;
        && |r| == |n.children|
        && (forall i | 0 <= i < |r| ::
              r[i].0 in n.children && r[i].1.Valid() && r[i].1.Model == n.children[r[i].0])
        && (forall i, j | 0 <= i < j < |r| :: r[i].0 != r[j].0)
    {
      r := [];
      var found := GetNext(tokens);
      if found.Found? {
        var node := found.value;
        r := node.Children();
        assert |node.path.Keys| == |node.Model.children.Keys|;
      }
    }

    /** The (token, child) pairs of `path`, each token once, in no
        particular order. */
    method Children() returns (r: seq<(Token, Trie)>)
      ensures |r| == |path|
      ensures forall i | 0 <= i < |r| :: r[i].0 in path && r[i].1 == path[r[i].0]
      ensures forall i, j | 0 <= i < j < |r| :: r[i].0 != r[j].0
    {
      r := [];
      var kids := path;
      var todo := kids.Keys;
      while todo != {}
        invariant todo <= kids.Keys
        invariant |r| + |todo| == |kids.Keys|
        invariant forall i | 0 <= i < |r| ::
          r[i].0 in kids && r[i].0 !in todo && r[i].1 == kids[r[i].0]
        invariant forall i, j | 0 <= i < j < |r| :: r[i].0 != r[j].0
        decreases todo
      {
        var k :| k in todo;
        r := r + [(k, kids[k])];
        todo := todo - {k};
      }
    }
  }

  /** Lines 139-150 of `keys`: join the tokens when each is at most two
      characters long, stopping at the first longer one. */
  method Reconstruct(prefix: seq<Token>) returns (entry: KeyEntry)
    ensures entry == Render(prefix)
  {
    var isStr := true;
    var val := "";
    var i := 0;
    while i < |prefix| && isStr
      invariant 0 <= i <= |prefix|
      decreases |prefix| - i, isStr
      invariant isStr ==> AllShort(prefix[..i]) && val == Concat(prefix[..i])
      invariant !isStr ==> !AllShort(prefix)
    {
      if |prefix[i]| > 2 {
        isStr := false;
      } else {
        assert prefix[..i + 1][..i] == prefix[..i];
        val := val + prefix[i];
        i := i + 1;
      }
    }
    if isStr {
      assert prefix[..i] == prefix;
      entry := Joined(val);
    } else {
      entry := Tokens(prefix);
    }
  }
}
