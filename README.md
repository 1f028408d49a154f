# go-grep trie index, modelled in Dafny

go-grep builds a word-to-file index over a directory and answers prefix
queries on it. Every file's contents are split into lower-cased words. Each
word is inserted into a character trie together with the file's path. A query
walks the trie along the search term and collects the paths recorded anywhere
in the subtree below it.

The model has three modules:

- `WordIndex` (`word_index.dfy`) is the abstract index that the trie represents.
  It is a map from each inserted word to its set of paths, with the prefix
  query over that map. It also folds whole documents into the index. The
  properties of insertion and search are proved here, on the map.
- `TrieIndex` (`trie.dfy`) holds the trie itself, as classes on the heap.
  - `TrieNode` has a child map keyed by code point, an end-of-word flag and
    a set of paths.
  - `Trie` holds the root. Its ghost fields are:
    - `Nodes`: the node reached by each label, i.e. each string spelled from
      the root;
    - `Words`: the `WordIndex.Index` that the trie stands for;
    - `Repr`: the footprint of the methods, exactly the nodes that some label reaches;
    - `Labels`: each node's label, the inverse of `Nodes`, which makes the
      nodes a tree.
  - `Valid()` ties the heap to these views.
  - `Insert` and `Search` are methods with loops, proved against `WordIndex`.
    `collectFiles` is a recursive method over the subtree.
- `Indexer` (`indexer.dfy`) is the indexing loop of `main.go` and the
  sequential core of the command: new trie, index, search. It works on files
  that are already split into words.

Together they give what the tool promises:

- `Trie.Insert` ends with `Words == WordIndex.Insert(old(Words), word, path)`.
- `Trie.Search` returns exactly the members of `WordIndex.Search(Words, prefix)`,
  with no duplicates, and changes nothing.
- So every `WordIndex` lemma holds of the trie as well. That covers search
  after insert, idempotence, commutation, monotonicity, the empty query and
  the missing branch.

## Model

| member | source | states |
|---|---|---|
| TrieIndex.TrieNode.constructor | trie.go:9-14 | NewTN: a node with no children, not end-of-word, with no files |
| TrieIndex.Trie.constructor | trie.go:20-24 | NewTrie: a valid trie whose only node is a fresh root labelled by the empty word, indexing nothing |
| TrieIndex.Trie.Insert | trie.go:26-37 | the trie stays valid. The index gains `path` for `word`. The labels grow by exactly the prefixes of `word`. Existing labels keep their nodes. Only new objects are added. Every node off `word`'s path keeps its children, flag and files |
| TrieIndex.Trie.Walk | trie.go:27-33 | the walk ends at the node labelled `word`. The labels are the old ones plus the prefixes of `word`, and old labels keep their nodes. The index is unchanged |
| TrieIndex.Trie.ChildOrNew | trie.go:29-32 | the child for `c` is the node labelled `up+[c]`. If that label existed, nothing changes. Otherwise the child is a freshly allocated node hung there. Validity and the index are kept |
| TrieIndex.Trie.AddChild | trie.go:29-31 | a missing child is created empty and linked under `c`. Nothing else of the parent changes, the trie stays valid, and the index is unchanged |
| TrieIndex.Trie.MarkWord | trie.go:35-36 | marking the final node end-of-word and adding the path is exactly `WordIndex.Insert` on the index; the shape is unchanged and the trie stays valid |
| TrieIndex.Trie.OnlyPathChanges | trie.go:26-37 | an insert leaves every node whose label is not a prefix of `word` with the same children, flag and files |
| TrieIndex.Trie.AddChildKeepsValid | trie.go:29-31 | hanging a fresh empty node under a labelled node, with a new label, keeps every part of validity |
| TrieIndex.Trie.AddChildKeepsEdges | trie.go:29-31 | after a new child is linked, child edges still correspond one-to-one with label extensions |
| TrieIndex.Trie.AddChildKeepsWords | trie.go:29-31 | after a new child is linked, the end-of-word nodes and their files still match the index |
| TrieIndex.Trie.MarkWordKeepsValid | trie.go:35-36 | setting the flag and adding the path at the node of `word`, with the index updated alike, keeps validity |
| TrieIndex.Trie.Search | trie.go:39-56 | a path is returned iff some indexed word starting with `prefix` has it. No path is returned twice. A prefix that leaves the trie gives the empty result. The trie is not modified |
| TrieIndex.Trie.CollectFiles | trie.go:58-68 | the accumulator gains exactly the paths of the words in the subtree of the node labelled `w`, including `w` itself when it is end-of-word |
| TrieIndex.Trie.CollectChildren | trie.go:65-67 | visiting every child, in any order, adds exactly the paths of the words longer than `w` that extend it |
| TrieIndex.Trie.MissingLabelFindsNothing | trie.go:41-46 | when the walk finds no child, no indexed word has the prefix, so the early nil return is the right answer |
| TrieIndex.Trie.ReprIsTheNodes | trie.go:16-18 | a valid trie owns exactly the nodes reached from its root by some label, so the methods that may change `Repr` touch only trie nodes |
| TrieIndex.Trie.WordPrefixIsLabel | trie.go:41-47 | every prefix of an indexed word labels a node, so the walk for it succeeds |
| TrieIndex.Trie.NextIsChild | trie.go:65-67 | every word strictly below a node continues through one of that node's children, so visiting the children misses nothing |
| TrieIndex.Trie.ChildSubtreeSmaller | trie.go:65-66 | the subtree of a child is strictly smaller than its parent's, so the recursion terminates |
| TrieIndex.AddLabelKeepsShape | trie.go:29-31 | a new label one code point below an existing one, given to an unlabelled node, keeps the labels prefix-closed and one node per label |
| TrieIndex.OffPathLabel | trie.go:28-32 | extending a label that is not a prefix of `word` never gives a prefix of `word`, so the walk never touches such nodes |
| TrieIndex.PrefixesExtend | trie.go:28-32 | one more step of the walk adds exactly one new prefix |
| TrieIndex.GrowAlongStep | trie.go:28-32 | after a step that looks up or adds the next label, the labels are the old ones plus the prefixes walked so far |
| WordIndex.Insert | trie.go:35-36 | insertion keeps every word's path set non-empty and adds exactly `word` to the indexed words |
| WordIndex.SearchAfterInsert | trie.go:26-37 | after an insert, any query finds what it found before, plus `path` exactly when the query is a prefix of `word` |
| WordIndex.InsertThenSearchFinds | trie.go:26-37 | after inserting `(word, path)`, searching for `word` finds `path` |
| WordIndex.InsertIdempotent | trie.go:35-36 | inserting the same pair twice equals inserting it once |
| WordIndex.InsertCommutes | trie.go:26-37 | two inserts in either order give the same index |
| WordIndex.InsertOnlyAdds | trie.go:26-37 | an insert never removes a path from any query's result |
| WordIndex.SearchMonotone | trie.go:39-49 | extending the query never finds more paths |
| WordIndex.SearchEmptyPrefix | trie.go:39-49 | the empty query finds every path of every indexed word |
| WordIndex.SearchEmptyIff | trie.go:39-56 | a query finds nothing iff no indexed word starts with it (both directions) |
| WordIndex.SearchSplit | trie.go:58-68 | the paths under a node are its own plus those below its continuation code points |
| WordIndex.SearchBelowNone | trie.go:65-67 | proof step for the children loop of collectFiles: its invariant holds on entry, since with no child visited there is nothing below to collect |
| WordIndex.SearchBelowAdd | trie.go:65-67 | visiting the child for `c` adds exactly the paths under `prefix+[c]` |
| WordIndex.CollectChild | trie.go:65-67 | one loop step of collectFiles keeps the accumulator equal to own paths plus the paths below the visited children |
| WordIndex.CollectNode | trie.go:58-68 | own paths plus the paths below all children equal the whole prefix query |
| WordIndex.SearchAfterInsertAll | main.go:53-57 | inserting all words of one file adds its path to a query exactly when one of its words starts with the query |
| WordIndex.SearchAfterIndexDocs | main.go:48-59 | after indexing files, a query finds the paths of exactly the files with a word starting with it |
| WordIndex.IndexOrderIrrelevant | main.go:48-59 | the order in which files reach the indexer, and repeats, do not change any query's answer |
| WordIndex.EmptyQueryFindsEveryContributor | main.go:48-59 | the empty query finds exactly the files that contributed at least one word |
| Indexer.IndexContent | main.go:48-59 | after indexing, the trie is valid and its index is every file's words inserted with that file's path, in order |
| Indexer.IndexWords | main.go:53-57 | the scanning loop for one file inserts each of its words, in order, with its path |
| Indexer.Grep | main.go:83-92 | new trie, index, search: a path is reported iff its file has a word starting with the query, each path once |
| Indexer.SearchTwoDocs | main.go:83-92 | with two files indexed into a fresh trie, a query finds the path of each file that has a matching word |
| Indexer.TwoFileScenario | main.go:83-92 | for files a.txt "hello world" and b.txt "hello there": "hello" finds both, "wor" finds a.txt, "xyz" finds nothing, "" finds both |

## Left out

- File discovery and reading (`findFiles`, `readFile`) are left out. They are file-system I/O; the model starts from files already read.
- The goroutines, channels and wait groups are left out. Their only effect on the trie is the order of the inserts, and `WordIndex.IndexOrderIrrelevant` shows that order does not matter.
- Argument checking, logging and printing in `main` are left out.
- Tokenisation is left out. `bufio.ScanWords` and `strings.ToLower` of the words and of the search term are treated as already done. A `Document` carries its words in lower case.
- Indexer.TwoFileScenario: starts from "hello world", because lower-casing "Hello" is outside the model.
- UTF-8 decoding is left out. Strings are sequences of Unicode scalar values, so Go's `range` over a string yields exactly these. Go's replacement of invalid bytes by U+FFFD is not modelled.
- TrieIndex.Trie.Search: returns its paths in some order but does not model Go's map iteration order.
- TrieIndex.Trie.Search: the model does not tell a Go `nil` slice from an empty one. Both are the empty sequence.
- TrieIndex.Trie.CollectFiles: the Go map accumulator shared by the recursive calls is modelled as a set passed in and returned. The loop over the children is a separate method, `CollectChildren`.
