/**
 The character trie of trie.go: heap nodes keyed by code point, each with an
 end-of-word flag and a set of file paths.  A Trie keeps two ghost views: the
 node reached by each label (the code points spelled from the root), and the
 word -> paths index (WordIndex.Index) that the nodes represent.
 */
module TrieIndex {
  import WordIndex

  /** A trie node: children by code point, end-of-word flag, file paths (NewTN builds an empty one). */
  class TrieNode {
    var children: map<char, TrieNode>
    var isEndOfWord: bool
    var files: set<string>

    constructor ()
      ensures children == map[] && !isEndOfWord && files == {}
    {
      children := map[];
      isEndOfWord := false;
      files := {};
    }
  }

  /** Every prefix of `w`, from the empty one to `w` itself. */
  ghost function Prefixes(w: string): set<string>
  {
    set k | 0 <= k <= |w| :: w[..k]
  }

  /** Labels are closed under prefixes, so every node hangs off the root (labelled []). */
  ghost predicate LabelsClosed(nodes: map<string, TrieNode>)
  {
    forall w, k :: w in nodes && 0 <= k <= |w| ==> w[..k] in nodes
  }

  /**
   `labels` maps each node back to its label, so distinct labels lead to
   distinct nodes: the nodes form a tree, not a graph.
   */
  ghost predicate LabelledBy(nodes: map<string, TrieNode>, labels: map<TrieNode, string>)
  {
    forall w :: w in nodes ==> nodes[w] in labels && labels[nodes[w]] == w
  }

  /** Adding the label `up + [c]` under the existing label `up`, with a node not yet labelled, keeps both shape properties. */
  lemma AddLabelKeepsShape(nodes: map<string, TrieNode>, labels: map<TrieNode, string>, up: string, c: char, child: TrieNode)
    requires LabelsClosed(nodes) && LabelledBy(nodes, labels)
    requires up in nodes && child !in labels
    ensures LabelsClosed(nodes[up + [c] := child]) && LabelledBy(nodes[up + [c] := child], labels[child := up + [c]])
  {
    var next := up + [c];
    var after := nodes[next := child];
    forall w, k | w in after && 0 <= k <= |w|
      ensures w[..k] in after
    {
      if w == next {
        if k <= |up| {
          assert w[..k] == up[..k];
        } else {
          assert w[..k] == w;
        }
      }
    }
  }

  /** A label that is not a prefix of `word` has no extension that is one. */
  lemma OffPathLabel(v: string, c: char, word: string)
    requires !(v <= word)
    ensures v + [c] !in Prefixes(word)
  {
    forall k | 0 <= k <= |word|
      ensures word[..k] != v + [c]
    {
      if k == |v| + 1 {
        assert (v + [c])[..|v|] == v && word[..k][..|v|] == word[..|v|];
      }
    }
  }

  /** The prefixes of one more code point of `word` are those of `word[..i]` and `word[..i + 1]`. */
  lemma PrefixesExtend(word: string, i: nat)
    requires i < |word|
    ensures Prefixes(word[..i + 1]) == Prefixes(word[..i]) + {word[..i + 1]}
  {
    var longer := word[..i + 1];
    forall v | v in Prefixes(longer)
      ensures v in Prefixes(word[..i]) + {longer}
    {
      var k :| 0 <= k <= i + 1 && v == longer[..k];
      if k <= i {
        assert v == word[..i][..k];
      } else {
        assert v == longer;
      }
    }
    forall v | v in Prefixes(word[..i])
      ensures v in Prefixes(longer)
    {
      var k :| 0 <= k <= i && v == word[..i][..k];
      assert v == longer[..k];
    }
    assert longer == longer[..i + 1];
  }

  /**
   `nodes` is `origin` grown along the prefix `p`: the labels are those of
   `origin` and the prefixes of `p`, and every label of `origin` keeps its node.
   */
  ghost predicate GrownAlong(origin: map<string, TrieNode>, nodes: map<string, TrieNode>, p: string)
  {
    && nodes.Keys == origin.Keys + Prefixes(p)
    && forall v :: v in origin ==> nodes[v] == origin[v]
  }

  /** One step of a walk along `word`, which looks up or adds the label `word[..i + 1]`. */
  lemma GrowAlongStep(origin: map<string, TrieNode>, before: map<string, TrieNode>, after: map<string, TrieNode>,
                      word: string, i: nat, child: TrieNode)
    requires i < |word| && GrownAlong(origin, before, word[..i])
    requires after == before[word[..i] + [word[i]] := child]
    requires word[..i] + [word[i]] in before ==> after == before
    ensures GrownAlong(origin, after, word[..i + 1]) && word[..i + 1] in after && after[word[..i + 1]] == child
  {
    PrefixesExtend(word, i);
    assert word[..i] + [word[i]] == word[..i + 1];
  }

  class Trie {
    var root: TrieNode

    /** The node reached from the root by each label. */
    ghost var Nodes: map<string, TrieNode>
    /** The abstract index: each inserted word and its paths. */
    ghost var Words: WordIndex.Index
    /** Every node of the trie: the footprint of its methods. */
    ghost var Repr: set<TrieNode>
    /** The label of each node, the inverse of Nodes. */
    ghost var Labels: map<TrieNode, string>

    /** Each child edge labelled c leads to the node of the label extended by c, and back. */
    ghost predicate EdgesMatch()
      reads this, Nodes.Values
    {
      && (forall w, c {:trigger Nodes[w].children[c]} :: w in Nodes && c in Nodes[w].children ==>
            w + [c] in Nodes && Nodes[w].children[c] == Nodes[w + [c]])
      && (forall w, c {:trigger w + [c]} :: w + [c] in Nodes ==> w in Nodes && c in Nodes[w].children)
    }

    /** The indexed words are the labels of end-of-word nodes, and each node holds its word's files. */
    ghost predicate WordsMatch()
      reads this, Nodes.Values
    {
      && (forall w :: w in Words <==> w in Nodes && Nodes[w].isEndOfWord)
      && (forall w :: w in Nodes ==> Nodes[w].files == WordIndex.FilesOf(Words, w))
      && WordIndex.WellFormed(Words)
    }

    ghost predicate Valid()
      reads this, Repr
    {
      && (forall w :: w in Nodes ==> Nodes[w] in Repr)
      && (forall n :: n in Repr ==> n in Labels && Labels[n] in Nodes && Nodes[Labels[n]] == n)
      && [] in Nodes && Nodes[[]] == root && LabelsClosed(Nodes)
      && LabelledBy(Nodes, Labels)
      && EdgesMatch()
      && WordsMatch()
    }

    /** The labels of the subtree rooted at the node of `w`. */
    ghost function Subtree(w: string): set<string>
      reads this
    {
      set v | v in Nodes && w <= v
    }

    /** The subtree below a child is strictly smaller than the subtree of its parent. */
    lemma ChildSubtreeSmaller(w: string, c: char)
      requires w in Nodes
      ensures Subtree(w + [c]) < Subtree(w)
    {
      assert w in Subtree(w) && w !in Subtree(w + [c]);
      forall v | v in Subtree(w + [c])
        ensures v in Subtree(w)
      {
        assert w + [c] == v[..|w| + 1];
        assert w == v[..|w| + 1][..|w|];
      }
    }

    /** NewTrie: a trie holding only an empty root. */
    constructor ()
      ensures Valid() && fresh(root)
      ensures Nodes == map[[] := root] && Words == map[] && Repr == {root}
    {
      root := new TrieNode();
      Nodes := map[[] := root];
      Words := map[];
      Repr := {root};
      Labels := map[root := []];
    }

    /** The footprint is exactly the set of nodes reached from the root by some label. */
    lemma ReprIsTheNodes()
      requires Valid()
      ensures forall n :: n in Repr <==> exists w :: w in Nodes && Nodes[w] == n
    {
      forall n | n in Repr
        ensures exists w :: w in Nodes && Nodes[w] == n
      {
        assert Nodes[Labels[n]] == n;
      }
    }

    /** Every prefix of an indexed word labels a node. */
    lemma WordPrefixIsLabel(q: string)
      requires Valid()
      ensures forall w :: w in Words && q <= w ==> q in Nodes
    {
      forall w | w in Words && q <= w
        ensures q in Nodes
      {
        assert w[..|q|] == q;
      }
    }

    /** A query that leaves the labelled nodes finds nothing. */
    lemma MissingLabelFindsNothing(q: string)
      requires Valid() && q !in Nodes
      ensures WordIndex.Search(Words, q) == {}
    {
      WordPrefixIsLabel(q);
    }

    /** Every word strictly below the node of `w` continues through one of its children. */
    lemma NextIsChild(w: string)
      requires Valid() && w in Nodes
      ensures forall v :: v in Words && w <= v && |w| < |v| ==> v[|w|] in Nodes[w].children
    {
      forall v | v in Words && w <= v && |w| < |v|
        ensures v[|w|] in Nodes[w].children
      {
        var u := v[..|w| + 1];
        assert u in Nodes;
        assert u == w + [v[|w|]];
      }
    }

    /**
     The heap step of AddChild: `child`, a fresh empty node, is linked under
     `parent` (the node labelled `up`) for code point `c` and given the label
     `up + [c]`; no other node changes and the index stays as it was.
     */
    twostate predicate ChildHung(parent: TrieNode, new up: string, new c: char, new child: TrieNode)
      reads this, Repr, parent, child
    {
      && Repr == old(Repr) + {child}
      && up in old(Nodes) && old(Nodes[up]) == parent && up + [c] !in old(Nodes)
      && child !in old(Repr)
      && Nodes == old(Nodes)[up + [c] := child] && Words == old(Words) && root == old(root)
      && parent.children == old(parent.children)[c := child]
      && parent.isEndOfWord == old(parent.isEndOfWord) && parent.files == old(parent.files)
      && child.children == map[] && !child.isEndOfWord && child.files == {}
      && (forall n :: n in old(Repr) && n != parent ==>
            n.children == old(n.children) && n.isEndOfWord == old(n.isEndOfWord) && n.files == old(n.files))
      && child !in old(Labels) && Labels == old(Labels)[child := up + [c]]
    }

    /** Hanging a fresh, empty node under the node of `up` with code point `c` keeps the trie valid. */
    twostate lemma AddChildKeepsValid(parent: TrieNode, new up: string, new c: char, new child: TrieNode)
      requires old(Valid())
      requires ChildHung(parent, up, c, child)
      ensures Valid()
    {
      AddLabelKeepsShape(old(Nodes), old(Labels), up, c, child);
      AddChildKeepsEdges(parent, up, c, child);
      AddChildKeepsWords(parent, up, c, child);
    }

    twostate lemma AddChildKeepsEdges(parent: TrieNode, new up: string, new c: char, new child: TrieNode)
      requires old(Valid())
      requires ChildHung(parent, up, c, child)
      ensures EdgesMatch()
    {
      var next := up + [c];
      forall w, d | w in Nodes && d in Nodes[w].children
        ensures w + [d] in Nodes && Nodes[w].children[d] == Nodes[w + [d]]
      {
        if w != next {
          assert old(Nodes[w]) in old(Repr);
          if w == up && d != c {
            assert old(Nodes[w]).children[d] == old(Nodes[w].children[d]);
          }
        }
      }
      forall w, d | w + [d] in Nodes
        ensures w in Nodes && d in Nodes[w].children
      {
        if w + [d] == next {
          assert w == up && d == c by {
            assert w == (w + [d])[..|w|] && up == next[..|up|];
            assert d == (w + [d])[|w|] && c == next[|up|];
          }
          assert Nodes[w] == parent;
        } else {
          assert w + [d] in old(Nodes);
          assert w in old(Nodes) && d in old(Nodes[w].children);
          if w == up {
            assert Nodes[w] == parent && d in old(parent.children);
          } else {
            assert old(Nodes[w]) in old(Repr);
            assert Nodes[w].children == old(Nodes[w].children);
          }
        }
      }
    }

    twostate lemma AddChildKeepsWords(parent: TrieNode, new up: string, new c: char, new child: TrieNode)
      requires old(Valid())
      requires ChildHung(parent, up, c, child)
      ensures WordsMatch()
    {
      forall w | w in old(Nodes)
        ensures Nodes[w] == old(Nodes[w])
        ensures Nodes[w].isEndOfWord == old(Nodes[w].isEndOfWord) && Nodes[w].files == old(Nodes[w].files)
      {
        assert old(Nodes[w]) in old(Repr);
      }
    }

    /** Marking the node of `word` as end-of-word and adding `path` to it keeps the trie valid. */
    twostate lemma MarkWordKeepsValid(node: TrieNode, new word: string, new path: string)
      requires old(Valid())
      requires word in old(Nodes) && old(Nodes[word]) == node
      requires Nodes == old(Nodes) && root == old(root) && Repr == old(Repr) && Labels == old(Labels)
      requires Words == WordIndex.Insert(old(Words), word, path)
      requires node.children == old(node.children)
      requires node.isEndOfWord && node.files == old(node.files) + {path}
      requires forall n :: n in old(Repr) && n != node ==>
                 n.children == old(n.children) && n.isEndOfWord == old(n.isEndOfWord) && n.files == old(n.files)
      ensures Valid()
    {
      forall w | w in Nodes
        ensures Nodes[w].children == old(Nodes[w].children)
        ensures w != word ==> Nodes[w].isEndOfWord == old(Nodes[w].isEndOfWord) && Nodes[w].files == old(Nodes[w].files)
      {
        assert Nodes[w] in old(Repr);
      }
    }

    /**
     One step of Insert's walk: the child of `node` (the node labelled `up`)
     for code point `c`, hung there as a fresh empty node when it is missing.
     */
    method ChildOrNew(node: TrieNode, ghost up: string, c: char) returns (child: TrieNode)
      requires Valid() && up in Nodes && node == Nodes[up]
      modifies this, node
      ensures Valid() && root == old(root) && Words == old(Words)
      ensures Nodes == old(Nodes)[up + [c] := child]
      ensures up + [c] in old(Nodes) ==> Nodes == old(Nodes)
      ensures up + [c] !in old(Nodes) ==> fresh(child)
      ensures Repr == old(Repr) + {child} && fresh(Repr - old(Repr))
    {
      if c !in node.children {
        assert up + [c] !in Nodes;
        child := AddChild(node, up, c);
      } else {
        child := node.children[c];
      }
    }

    /** The missing child of `node` (the node labelled `up`) for code point `c`, created empty. */
    method AddChild(node: TrieNode, ghost up: string, c: char) returns (made: TrieNode)
      requires Valid() && up in Nodes && node == Nodes[up] && up + [c] !in Nodes
      modifies this, node
      ensures Valid() && root == old(root) && Words == old(Words)
      ensures fresh(made) && Nodes == old(Nodes)[up + [c] := made] && Repr == old(Repr) + {made}
      ensures node.children == old(node.children)[c := made]
      ensures node.isEndOfWord == old(node.isEndOfWord) && node.files == old(node.files)
    {
      label Step:
      made := new TrieNode();
      node.children := node.children[c := made];
      Nodes := Nodes[up + [c] := made];
      Repr := Repr + {made};
      Labels := Labels[made := up + [c]];
      AddChildKeepsValid@Step(node, up, c, made);
    }

    /**
     Insert: the word gains `path` in the index; the labels grow by exactly
     the prefixes of `word`, existing labels keep their nodes, and every node
     off `word`'s path is left as it was.
     */
    method Insert(word: string, path: string)
      requires Valid()
      modifies this, Repr
      ensures Valid() && root == old(root)
      ensures Words == WordIndex.Insert(old(Words), word, path)
      ensures Nodes.Keys == old(Nodes.Keys) + Prefixes(word)
      ensures forall v :: v in old(Nodes) ==> Nodes[v] == old(Nodes[v])
      ensures fresh(Repr - old(Repr))
      ensures forall v :: v in old(Nodes) && !(v <= word) ==>
                Nodes[v].children == old(Nodes[v].children) &&
                Nodes[v].isEndOfWord == old(Nodes[v].isEndOfWord) && Nodes[v].files == old(Nodes[v].files)
    {
      var current := Walk(word);
      MarkWord(current, word, path);
      OnlyPathChanges(word, path);
    }

    /**
     Once the labels have grown by the prefixes of `word` and the index by
     `word`'s entry, every node off `word`'s path is as it was: its children
     are fixed by the labels, its flag and files by the index.
     */
    twostate lemma OnlyPathChanges(new word: string, new path: string)
      requires old(Valid()) && Valid()
      requires Nodes.Keys == old(Nodes.Keys) + Prefixes(word)
      requires forall v :: v in old(Nodes) ==> Nodes[v] == old(Nodes[v])
      requires Words == WordIndex.Insert(old(Words), word, path)
      ensures forall v :: v in old(Nodes) && !(v <= word) ==>
                Nodes[v].children == old(Nodes[v].children) &&
                Nodes[v].isEndOfWord == old(Nodes[v].isEndOfWord) && Nodes[v].files == old(Nodes[v].files)
    {
      forall v | v in old(Nodes) && !(v <= word)
        ensures Nodes[v].children == old(Nodes[v].children)
      {
        forall c | v + [c] in Nodes
          ensures v + [c] in old(Nodes)
        {
          OffPathLabel(v, c, word);
        }
        assert Nodes[v].children.Keys == old(Nodes[v].children).Keys;
      }
    }

    /** The loop of Insert: follows `word` from the root, creating the nodes that are missing. */
    method Walk(word: string) returns (current: TrieNode)
      requires Valid()
      modifies this, Repr
      ensures Valid() && root == old(root) && Words == old(Words)
      ensures word in Nodes && current == Nodes[word]
      ensures GrownAlong(old(Nodes), Nodes, word)
      ensures fresh(Repr - old(Repr))
    {
      current := root;
      for i := 0 to |word|
        invariant Valid() && root == old(root) && Words == old(Words)
        invariant word[..i] in Nodes && current == Nodes[word[..i]]
        invariant GrownAlong(old(Nodes), Nodes, word[..i])
        invariant fresh(Repr - old(Repr))
      {
        ghost var before := Nodes;
        current := ChildOrNew(current, word[..i], word[i]);
        GrowAlongStep(old(Nodes), before, Nodes, word, i, current);
      }
      assert word[..|word|] == word;
    }

    /** The last step of Insert: the node of `word` becomes end-of-word and records `path`. */
    method MarkWord(node: TrieNode, ghost word: string, path: string)
      requires Valid() && word in Nodes && node == Nodes[word]
      modifies this, node
      ensures Valid() && root == old(root) && Nodes == old(Nodes) && Repr == old(Repr)
      ensures Words == WordIndex.Insert(old(Words), word, path)
    {
      node.isEndOfWord := true;
      node.files := node.files + {path};
      Words := WordIndex.Insert(Words, word, path);
      MarkWordKeepsValid(node, word, path);
    }

    /**
     Search: the paths of every word starting with `prefix`, each once and in
     no particular order; nothing when `prefix` leaves the trie.  The trie is
     only read.
     */
    method Search(prefix: string) returns (results: seq<string>)
      requires Valid()
      ensures forall f :: f in results <==> f in WordIndex.Search(Words, prefix)
      ensures forall i, j :: 0 <= i < j < |results| ==> results[i] != results[j]
      ensures prefix !in Nodes ==> results == []
    {
      var current := root;
      for i := 0 to |prefix|
        invariant prefix[..i] in Nodes && current == Nodes[prefix[..i]]
      {
        var c := prefix[i];
        if c in current.children {
          current := current.children[c];
          assert prefix[..i + 1] == prefix[..i] + [c];
          continue;
        }
        assert prefix[..i + 1] !in Nodes by {
          assert prefix[..i + 1] == prefix[..i] + [c];
        }
        MissingLabelFindsNothing(prefix);
        return [];
      }
      assert prefix[..|prefix|] == prefix;
      var filesFound := CollectFiles(current, prefix, {});

      results := [];
      var rest := filesFound;
      while rest != {}
        invariant forall f :: f in filesFound <==> f in rest || f in results
        invariant forall f :: f in rest ==> f !in results
        invariant forall i, j :: 0 <= i < j < |results| ==> results[i] != results[j]
        decreases rest
      {
        var file :| file in rest;
        results := results + [file];
        rest := rest - {file};
      }
    }

    /**
     Adds to `found` the files of every end-of-word node in the subtree of
     `node`, the node labelled `w`.  The accumulator is threaded through as a
     value: `found` comes in, `collected` goes out.
     */
    method CollectFiles(node: TrieNode, ghost w: string, found: set<string>) returns (collected: set<string>)
      requires Valid() && w in Nodes && node == Nodes[w]
      ensures collected == found + WordIndex.Search(Words, w)
      decreases Subtree(w), 1
    {
      collected := found;
      if node.isEndOfWord {
        var rest := node.files;
        while rest != {}
          invariant rest <= node.files
          invariant collected == found + (node.files - rest)
          decreases rest
        {
          var file :| file in rest;
          collected := collected + {file};
          rest := rest - {file};
        }
      }
      ghost var own := collected;
      assert own == found + WordIndex.FilesOf(Words, w);
      collected := CollectChildren(node, w, collected);
      NextIsChild(w);
      WordIndex.CollectNode(Words, w, node.children.Keys, found, own, collected);
    }

    /** The loop of CollectFiles over the children of `node`, the node labelled `w`, in any order. */
    method CollectChildren(node: TrieNode, ghost w: string, found: set<string>) returns (collected: set<string>)
      requires Valid() && w in Nodes && node == Nodes[w]
      ensures collected == found + WordIndex.SearchBelow(Words, w, node.children.Keys)
      decreases Subtree(w), 0
    {
      collected := found;
      var pending := node.children.Keys;
      ghost var visited: set<char> := {};
      WordIndex.SearchBelowNone(Words, w);
      while pending != {}
        invariant pending + visited == node.children.Keys && pending !! visited
        invariant collected == found + WordIndex.SearchBelow(Words, w, visited)
        decreases pending
      {
        var c :| c in pending;
        var child := node.children[c];
        ChildSubtreeSmaller(w, c);
        ghost var before := collected;
        collected := CollectFiles(child, w + [c], collected);
        WordIndex.CollectChild(Words, w, visited, c, found, before, collected);
        pending := pending - {c};
        visited := visited + {c};
      }
    }
  }
}
