# A verified model of the `Trie` of `scripts/trie.py`

`scripts/trie.py` holds a prefix tree for predictive text. It maps a
non-empty sequence of tokens to a weight string. A token is one character
when the tree holds unigrams (words), and one word when it holds n-grams.
Each node owns a dictionary `path` from a token to a child node, a `value`,
and a `value_valid` flag. Insert (`__setitem__`) creates nodes along the
key when they are missing. Delete (`__delitem__`) clears a terminal node
and drops every child whose `len` has fallen to zero on the way back up.
Lookup (`__getitem__`, `__contains__`), prefix navigation (`get_next`),
counting (`__len__`), key enumeration (`keys`) and next-token prediction
(`get_predictions`) walk the same structure. Two static parsers,
`tokenize_unigram` and `tokenize_ngram`, turn a line of a count file into a
`(weight, tokens)` pair.

The project has five files:

- `wrappers.dfy` (module `Wrappers`): `Option`.
- `trie_spec.dfy` (module `TrieSpec`): the abstract value of a node, the
  datatype `Tree`, and each operation as a function over it. `Get` and
  `GetNext` return `Found(v)` or `KeyError(key)`, so Python's exception
  becomes a value. `Size` is `__len__`, `KeysOf` is `keys()` as a multiset,
  and `Pruned` is the invariant that no child has size zero.
- `trie_lemmas.dfy` (module `TrieLemmas`): the properties of those
  functions. These cover get-after-set, get-after-delete, `len` against
  the set of stored keys, the pruning invariant, prefix navigation, and
  the number and content of the entries of `keys()`.
- `trie.dfy` (module `Tries`): the class `Trie`, with the fields `path`,
  `value` and `valueValid`. Insert and delete are methods that update
  nodes in place. `__len__`, `keys` and `get_predictions` are methods with
  loops over the dictionary. Each node carries two ghost fields: `Model`,
  its `Tree`, and `Repr`, the nodes it owns. `Valid()` ties the fields to
  `Model` and keeps the children's footprints disjoint. Insert, delete,
  lookup, `get_next`, `__len__` and `keys` are proved to compute their
  `TrieSpec` functions. `get_predictions` is specified through `GetNext`:
  its pairs are exactly the entries of the reached node's `path`.
- `tokenize.dfy` (module `Tokenize`): Python's `strip()`, `split(sep)` and
  `list(word)` as functions, the two tokenizers, and their round trips.

Deleting a key whose path is missing is a silent no-op
(`scripts/trie.py:92-103`); it does not raise `KeyError`. `get_predictions`
accepts `num_candidates` and never uses it.

## Model

| member | source | states |
|---|---|---|
| Tries.Trie.constructor | scripts/trie.py:72-75 | a new node is valid and empty: no children, no value |
| Tries.Trie.Set | scripts/trie.py:77-90 | `t[key] = w` leaves a valid trie whose abstract value is `TrieSpec.Set(old value, key, w)`; all nodes it adds are new |
| Tries.Trie.SetInChild | scripts/trie.py:85-90 | recursing into the child for the first token, or marking it terminal, gives the same result as `TrieSpec.Set` |
| Tries.Trie.AddChild | scripts/trie.py:81-83 | a missing first token gets a fresh empty child; the other children are unchanged |
| Tries.Trie.MarkStored | scripts/trie.py:89-90 | the node becomes terminal with value `w`; its children are unchanged |
| Tries.Trie.Delete | scripts/trie.py:92-103 | `del t[key]` leaves a valid trie, owning no new nodes, whose abstract value is `TrieSpec.Delete(old value, key)` |
| Tries.Trie.DeleteInChild | scripts/trie.py:96-101 | the child for the first token becomes its own delete of the rest of the key, or loses its value; nothing else changes |
| Tries.Trie.ClearStored | scripts/trie.py:100-101 | the node stops being terminal; its children are unchanged |
| Tries.Trie.Prune | scripts/trie.py:102-103 | the child under `head` is removed exactly when its size is zero; otherwise the node is unchanged |
| Tries.Trie.RemoveChild | scripts/trie.py:103 | only the entry for `head` leaves `path`; the other children and the value are unchanged |
| Tries.Trie.Get | scripts/trie.py:105-120 | `t[key]` is exactly `TrieSpec.Get` of the abstract value: the value stored under `key`, or `KeyError(key)` with the whole key |
| Tries.Trie.Contains | scripts/trie.py:122-127 | `key in t` holds exactly when `t[key]` succeeds, and exactly when `key` is a stored key |
| Tries.Trie.Len | scripts/trie.py:130-134 | the loop over the children returns `Size` of the abstract value, in any iteration order |
| Tries.Trie.Keys | scripts/trie.py:136-156 | the entries returned are, as a multiset, `KeysOf(value, prefix)`: one rendered entry per terminal node, in any iteration order |
| Tries.Reconstruct | scripts/trie.py:139-150 | the loop gives `Joined` of the concatenated tokens when each token has at most two characters, and the token list otherwise |
| Tries.Trie.GetNext | scripts/trie.py:158-173 | `get_next(prefix)` is a `KeyError` carrying `prefix` exactly when `TrieSpec.GetNext` is one; otherwise it is a valid owned node whose abstract value is the subtree at `prefix` |
| Tries.Trie.GetPredictions | scripts/trie.py:175-181 | an unreachable prefix gives no pairs; otherwise each child of the reached node appears exactly once, with its token, as a valid node whose value is that child |
| Tries.Trie.Children | scripts/trie.py:178 | `path.items()`: as many pairs as `path` has entries, each a distinct token with its own child |
| TrieSpec.Get | scripts/trie.py:105-120 | the lookup succeeds exactly when a value is stored at the end of the key's path, returns that value, and on failure carries the whole key |
| TrieSpec.GetNext | scripts/trie.py:158-173 | the lookup succeeds exactly when the path of the prefix exists, returns the node at its end, and on failure carries the whole prefix |
| TrieSpec.Set | scripts/trie.py:77-90 | insert keeps the node's own value and adds the first token of the key to its children, creating it when missing and never removing one; `GetAfterSet` and `StoredAfterSet` give the rest |
| TrieSpec.Delete | scripts/trie.py:92-103 | delete keeps the node's own value, only ever removes children, and leaves the node unchanged when the first token is missing; `GetAfterDelete` and `StoredAfterDelete` give the rest |
| TrieSpec.Size | scripts/trie.py:130-134 | a terminal node has a positive `len`; `SizeIsCount` makes it the number of stored keys |
| TrieSpec.Render | scripts/trie.py:139-150 | an entry is the joined string exactly when every token is at most two characters long, and otherwise the token list itself |
| TrieSpec.KeysOf | scripts/trie.py:136-156 | a terminal node contributes its own rendered prefix; `KeysOfCard` and `KeysOfCount` give the number and multiplicity of all entries |
| TrieLemmas.GetAfterSet | scripts/trie.py:77-120 | after `t[K] = W`, `t[X]` is `W` when X is K and the old lookup for every other X |
| TrieLemmas.SetSetSame | scripts/trie.py:77-90 | a second insert under the same key overwrites the first; inserting the same pair twice equals inserting it once |
| TrieLemmas.InteriorNotStored | scripts/trie.py:77-127 | after one insert into an empty trie, no proper prefix of the key is contained |
| TrieLemmas.StoredAfterSet | scripts/trie.py:77-90 | insert adds exactly its key to the set of stored keys |
| TrieLemmas.SizeAfterSet | scripts/trie.py:77-90 | insert raises `len` by one for a new key and leaves it unchanged for a stored one |
| TrieLemmas.PrunedAfterSet | scripts/trie.py:77-90 | insert keeps every child at positive size |
| TrieLemmas.SetAfterAdd | scripts/trie.py:81-83 | creating the empty child before recursing does not change the result of insert |
| TrieLemmas.GetAfterDelete | scripts/trie.py:92-120 | after `del t[K]`, `t[K]` is `KeyError(K)` and every other lookup is unchanged |
| TrieLemmas.StoredAfterDelete | scripts/trie.py:92-103 | delete removes exactly its key from the set of stored keys |
| TrieLemmas.SizeAfterDelete | scripts/trie.py:92-103 | delete lowers `len` by one for a stored key and leaves it unchanged otherwise |
| TrieLemmas.PrunedAfterDelete | scripts/trie.py:92-103 | delete keeps every child at positive size: the emptied branches are dropped |
| TrieLemmas.DeleteAbsent | scripts/trie.py:92-103 | on a pruned trie, delete changes nothing exactly when the key is not stored; it never raises |
| TrieLemmas.DeleteUnfold | scripts/trie.py:92-103 | once the child has been updated, delete drops it exactly when its size is zero |
| TrieLemmas.ValueAtSet | scripts/trie.py:77-90 | the value stored under any path after insert |
| TrieLemmas.ValueAtDelete | scripts/trie.py:92-103 | the value stored under any path after delete |
| TrieLemmas.StoredMember | scripts/trie.py:105-120 | a key is stored exactly when a value sits at the end of its path |
| TrieLemmas.SizeIsCount | scripts/trie.py:130-134 | `len` of a node is the number of keys stored at or below it |
| TrieLemmas.SumOverIsCount | scripts/trie.py:132-133 | the sum over any set of children is the number of keys stored below them |
| TrieLemmas.SizeZero | scripts/trie.py:130-134 | a node of size zero stores nothing at or below it |
| TrieLemmas.AtAppend | scripts/trie.py:158-173 | walking `P + X` is walking `P`, then `X` from the node reached |
| TrieLemmas.GetNextSubtree | scripts/trie.py:158-173 | looking up `X` in `get_next(P)` succeeds exactly when looking up `P + X` in the trie does, with the same value |
| TrieLemmas.PrunedAt | scripts/trie.py:92-103 | on a pruned trie, every node reached by a non-empty path has positive size and is pruned |
| TrieLemmas.PrunedReached | scripts/trie.py:158-173 | on a pruned trie, a node reached by `get_next(P)` has a stored key starting with `P` |
| TrieLemmas.PrefixReached | scripts/trie.py:158-173 | every non-empty prefix of a stored key leads `get_next` to a node |
| TrieLemmas.PrunedPrefix | scripts/trie.py:158-173 | on a pruned trie, `get_next(P)` succeeds exactly when some stored key starts with `P` |
| TrieLemmas.KeysOfCard | scripts/trie.py:136-156 | `keys()` has exactly `len` entries |
| TrieLemmas.KeysMember | scripts/trie.py:136-156 | an entry is in `keys(P)` exactly when it renders `P + X` for some stored key `X` |
| TrieLemmas.KeysOfCount | scripts/trie.py:136-156 | each entry occurs in `keys(P)` as many times as there are stored keys that render to it |
| TrieLemmas.KeysOverPick | scripts/trie.py:151-155 | the entries gathered from the children do not depend on the order in which the children are visited |
| Tokenize.Lead | scripts/trie.py:16 | the length of the leading whitespace: all of it is whitespace and the next character is not |
| Tokenize.Trail | scripts/trie.py:16 | the length of the trailing whitespace: all of it is whitespace and the character before it is not |
| Tokenize.Strip | scripts/trie.py:16-18 | `strip()` is empty exactly for a blank line; otherwise it starts and ends with a non-whitespace character |
| Tokenize.StripPadded | scripts/trie.py:16 | `strip()` removes exactly the whitespace around a text that starts and ends with a non-whitespace character |
| Tokenize.StripIdempotent | scripts/trie.py:16 | stripping twice is stripping once |
| Tokenize.FindFrom | scripts/trie.py:20 | the first occurrence of the separator at or after a position, or none |
| Tokenize.Split | scripts/trie.py:20 | `split(sep)` gives at least one field, no field contains the separator, and joining the fields with the separator gives back the string |
| Tokenize.SplitJoin | scripts/trie.py:20 | `split` undoes `join` when no field contains the separator and the separator cannot overlap itself |
| Tokenize.SplitCount | scripts/trie.py:20-22 | splitting on one character gives two or more fields exactly when that character occurs |
| Tokenize.Chars | scripts/trie.py:26 | `list(word)` has one token of length one per character |
| Tokenize.ConcatChars | scripts/trie.py:26 | the tokens of `list(word)` joined together give back the word |
| Tokenize.RenderChars | scripts/trie.py:26 | `keys()` reports a word read by the unigram parser as the word itself |
| Tokenize.NonEmpty | scripts/trie.py:45 | a token is in the result exactly when it is a non-empty token of the input; the result is no longer than the input |
| Tokenize.NonEmptyMultiset | scripts/trie.py:45 | the comprehension keeps each non-empty token as many times as it occurs and drops every empty one |
| Tokenize.NonEmptyAppend | scripts/trie.py:45 | filtering a concatenation is concatenating the filtered parts, so the kept tokens stay in their input order |
| Tokenize.NonEmptyKeepsAll | scripts/trie.py:45 | the comprehension keeps every token when none is empty |
| Tokenize.TokenizeUnigram | scripts/trie.py:9-26 | `None` exactly when the stripped line has no space; otherwise a space-free weight and one-character tokens |
| Tokenize.UnigramFields | scripts/trie.py:16-26 | the weight is the stripped line up to its first space, and the tokens spell the text from there to the next space or the end |
| Tokenize.UnigramRoundTrip | scripts/trie.py:9-26 | `weight word`, with any whitespace around it, reads back as the weight and the characters of the word |
| Tokenize.TokenizeNgram | scripts/trie.py:28-45 | `None` exactly when the stripped line has no space; otherwise a space-free weight and tokens that are non-empty and free of `<>` |
| Tokenize.NgramFields | scripts/trie.py:35-45 | the weight is the second field of the stripped line, and the tokens are the non-empty `<>` parts of the first field, without its last part |
| Tokenize.NgramRoundTrip | scripts/trie.py:28-45 | `w1<>...<>wn<>rank weight`, with any whitespace around it, reads back as the weight and `w1 ... wn` |
| Tokenize.NgramKey | scripts/trie.py:42 | the first field `w1<>...<>wn<>rank` of an n-gram line is non-empty, whitespace-free and splits on `<>` back into `w1`, ..., `wn`, `rank` |

## Left out

- `from_files` (`scripts/trie.py:47-70`) reads files and swallows every exception per line. File I/O is not modelled; the parsers it calls are.
- `dump` (`scripts/trie.py:183-186`) only prints, so it is not modelled.
- Tries.Trie.GetPredictions: does not model the order of the pairs. The source sorts them by comparing the child node objects themselves, an order Python 2 derives from object identity, so it cannot be specified. `num_candidates` is accepted and ignored, as in the source.
- Tries.Trie.Keys: states the result as a multiset. The source returns a list in the dictionary's iteration order, which Python does not specify.
- Tries.Trie.Len: visits the children in an arbitrary order, as the dictionary does; the count does not depend on it.
- Tries.Reconstruct: does not model the `type(k) != str` test. Every token here is a string, so that test is always false.
- Tries.Trie.Set, Tries.Trie.Delete, Tries.Trie.Get, Tries.Trie.Contains, Tries.Trie.GetNext and Tries.Trie.GetPredictions require a non-empty key. On an empty key Python raises `IndexError` at `key[0]`, and that exception is not modelled.
- Tries.Trie.Set: a weight is a string. Python would also accept `t[key] = None`, which leaves a terminal node whose value is `None`; the model cannot express that.
- Tokenize.Strip: treats the six ASCII whitespace characters of a Python 2 byte string as whitespace. Unicode whitespace is not modelled.
- `Repr` and `Model` are ghost fields with no counterpart in the source. The model does not capture aliasing: a node shared by two parents, or handed out by `get_next` and then changed, would break `Valid()`.
