/**
 The abstract word index that the trie implements: a finite map from each
 indexed word to the set of file paths it was inserted with, and the prefix
 query over it.  Words and paths are strings of Unicode code points.
 */
module WordIndex {

  /** Word -> set of file paths. */
  type Index = map<string, set<string>>

  /** Every indexed word was inserted with at least one path. */
  ghost predicate WellFormed(ix: Index)
  {
    forall w :: w in ix ==> ix[w] != {}
  }

  /** The paths recorded for exactly the word `w` (none if it was never inserted). */
  ghost function FilesOf(ix: Index, w: string): set<string>
  {
    if w in ix then ix[w] else {}
  }

  /** Inserting `word` with `path`: the word becomes indexed and `path` joins its set. */
  ghost function Insert(ix: Index, word: string, path: string): (r: Index)
    ensures WellFormed(ix) ==> WellFormed(r)
    ensures r.Keys == ix.Keys + {word}
  {
    ix[word := FilesOf(ix, word) + {path}]
  }

  /** Prefix query: every path recorded for some indexed word that starts with `prefix`. */
  ghost function Search(ix: Index, prefix: string): set<string>
  {
    set w, f | w in ix && prefix <= w && f in ix[w] :: f
  }

  /** Every path recorded for any word. */
  ghost function AllPaths(ix: Index): set<string>
  {
    set w, f | w in ix && f in ix[w] :: f
  }

  /**
   The paths of the words that extend `prefix` by at least one code point
   whose next code point (the one right after `prefix`) is in `next`.
   */
  ghost function SearchBelow(ix: Index, prefix: string, next: set<char>): set<string>
  {
    set w, f | w in ix && prefix <= w && |prefix| < |w| && w[|prefix|] in next && f in ix[w] :: f
  }

  // ---------------------------------------------------------------------------
  // Insert and Search

  /** What one insert does to any prefix query: it adds `path` exactly when `q` is a prefix of `word`. */
  lemma SearchAfterInsert(ix: Index, word: string, path: string, q: string)
    ensures Search(Insert(ix, word, path), q) == Search(ix, q) + (if q <= word then {path} else {})
  {
    var after := Insert(ix, word, path);
    var extra: set<string> := if q <= word then {path} else {};
    forall f | f in Search(after, q)
      ensures f in Search(ix, q) + extra
    {
      var w :| w in after && q <= w && f in after[w];
      if w != word || f != path {
        if w == word {
          assert f in FilesOf(ix, word);
        }
        assert w in ix && f in ix[w];
      }
    }
    forall f | f in Search(ix, q) + extra
      ensures f in Search(after, q)
    {
      if f in Search(ix, q) {
        var w :| w in ix && q <= w && f in ix[w];
        assert w in after && f in after[w];
      } else {
        assert word in after && path in after[word];
      }
    }
  }

  /** After inserting `(word, path)`, searching for `word` finds `path`. */
  lemma InsertThenSearchFinds(ix: Index, word: string, path: string)
    ensures path in Search(Insert(ix, word, path), word)
  {
    SearchAfterInsert(ix, word, path, word);
  }

  /** Inserting the same pair twice leaves the index as inserting it once. */
  lemma InsertIdempotent(ix: Index, word: string, path: string)
    ensures Insert(Insert(ix, word, path), word, path) == Insert(ix, word, path)
  {
    var once := Insert(ix, word, path);
    assert FilesOf(once, word) + {path} == FilesOf(once, word);
  }

  /** Two inserts commute, so the order in which words arrive does not matter. */
  lemma InsertCommutes(ix: Index, w1: string, p1: string, w2: string, p2: string)
    ensures Insert(Insert(ix, w1, p1), w2, p2) == Insert(Insert(ix, w2, p2), w1, p1)
  {
    var a := Insert(Insert(ix, w1, p1), w2, p2);
    var b := Insert(Insert(ix, w2, p2), w1, p1);
    assert a.Keys == b.Keys;
    forall w | w in a
      ensures a[w] == b[w]
    {
      if w == w1 && w == w2 {
        assert a[w] == FilesOf(ix, w) + {p1, p2} == b[w];
      } else if w == w1 {
        assert a[w] == FilesOf(ix, w) + {p1} == b[w];
      } else if w == w2 {
        assert a[w] == FilesOf(ix, w) + {p2} == b[w];
      }
    }
  }

  /** Insert only adds: every path found before an insert is still found afterwards. */
  lemma InsertOnlyAdds(ix: Index, word: string, path: string, q: string)
    ensures Search(ix, q) <= Search(Insert(ix, word, path), q)
  {
    SearchAfterInsert(ix, word, path, q);
  }

  /** A longer query finds no more than a shorter one it extends. */
  lemma SearchMonotone(ix: Index, q1: string, q2: string)
    requires q1 <= q2
    ensures Search(ix, q2) <= Search(ix, q1)
  {
    forall f | f in Search(ix, q2)
      ensures f in Search(ix, q1)
    {
      var w :| w in ix && q2 <= w && f in ix[w];
      assert q1 <= w by {
        assert q1 == q2[..|q1|] && q2 == w[..|q2|];
        assert w[..|q2|][..|q1|] == w[..|q1|];
      }
    }
  }

  /** The empty query finds every path of every word. */
  lemma SearchEmptyPrefix(ix: Index)
    ensures Search(ix, []) == AllPaths(ix)
  {
    forall f | f in AllPaths(ix)
      ensures f in Search(ix, [])
    {
      var w :| w in ix && f in ix[w];
      assert [] <= w;
    }
  }

  /**
   On a well-formed index a query finds nothing exactly when no indexed word
   starts with it.
   */
  lemma SearchEmptyIff(ix: Index, q: string)
    requires WellFormed(ix)
    ensures Search(ix, q) == {} <==> forall w :: w in ix ==> !(q <= w)
  {
    if w :| w in ix && q <= w {
      var f :| f in ix[w];
      assert f in Search(ix, q);
    }
  }

  // ---------------------------------------------------------------------------
  // Splitting a query at the next code point (the shape of the subtree walk)

  /**
   The paths under `prefix` are those of `prefix` itself plus those of the
   words continuing with a code point in `next`, provided every longer word
   continues with one of them.
   */
  lemma SearchSplit(ix: Index, prefix: string, next: set<char>)
    requires forall w :: w in ix && prefix <= w && |prefix| < |w| ==> w[|prefix|] in next
    ensures Search(ix, prefix) == FilesOf(ix, prefix) + SearchBelow(ix, prefix, next)
  {
    forall f | f in Search(ix, prefix)
      ensures f in FilesOf(ix, prefix) + SearchBelow(ix, prefix, next)
    {
      var w :| w in ix && prefix <= w && f in ix[w];
      if |w| == |prefix| {
        assert w == prefix;
      }
    }
    forall f | f in FilesOf(ix, prefix)
      ensures f in Search(ix, prefix)
    {
      assert prefix in ix && prefix <= prefix && f in ix[prefix];
    }
  }

  /** No continuation code points: nothing below. */
  lemma SearchBelowNone(ix: Index, prefix: string)
    ensures SearchBelow(ix, prefix, {}) == {}
  {
  }

  /** Adding the code point `c` to the continuations adds the paths under `prefix + [c]`. */
  lemma SearchBelowAdd(ix: Index, prefix: string, next: set<char>, c: char)
    ensures SearchBelow(ix, prefix, next + {c}) == SearchBelow(ix, prefix, next) + Search(ix, prefix + [c])
  {
    var longer := prefix + [c];
    forall f | f in SearchBelow(ix, prefix, next + {c})
      ensures f in SearchBelow(ix, prefix, next) + Search(ix, longer)
    {
      var w :| w in ix && prefix <= w && |prefix| < |w| && w[|prefix|] in next + {c} && f in ix[w];
      if w[|prefix|] !in next {
        assert longer == w[..|prefix| + 1];
        assert longer <= w;
      }
    }
    forall f | f in Search(ix, longer)
      ensures f in SearchBelow(ix, prefix, next + {c})
    {
      var w :| w in ix && longer <= w && f in ix[w];
      assert prefix <= w && w[|prefix|] == c by {
        assert longer == w[..|longer|];
        assert prefix == longer[..|prefix|];
        assert w[..|longer|][..|prefix|] == w[..|prefix|];
      }
    }
  }

  /**
   One step of the subtree walk: an accumulator holding `own` and the paths
   below the continuations `next`, extended by the paths under `prefix + [c]`,
   holds the paths below `next + {c}`.
   */
  lemma CollectChild(ix: Index, prefix: string, next: set<char>, c: char,
                     own: set<string>, before: set<string>, after: set<string>)
    requires before == own + SearchBelow(ix, prefix, next)
    requires after == before + Search(ix, prefix + [c])
    ensures after == own + SearchBelow(ix, prefix, next + {c})
  {
    SearchBelowAdd(ix, prefix, next, c);
  }

  /**
   The last step of the subtree walk: `own` adds the paths of `prefix` itself
   to `found`, `after` adds those below every continuation, so `after` adds
   everything under `prefix`.
   */
  lemma CollectNode(ix: Index, prefix: string, next: set<char>,
                    found: set<string>, own: set<string>, after: set<string>)
    requires forall w :: w in ix && prefix <= w && |prefix| < |w| ==> w[|prefix|] in next
    requires own == found + FilesOf(ix, prefix)
    requires after == own + SearchBelow(ix, prefix, next)
    ensures after == found + Search(ix, prefix)
  {
    SearchSplit(ix, prefix, next);
  }

  // ---------------------------------------------------------------------------
  // Indexing many words and many documents

  /** Inserting every word of `words`, in order, each with `path`. */
  ghost function InsertAll(ix: Index, words: seq<string>, path: string): Index
    decreases |words|
  {
    if words == [] then ix
    else Insert(InsertAll(ix, words[..|words| - 1], path), words[|words| - 1], path)
  }

  /** Some word of `words` starts with `q`. */
  ghost predicate SomeWordStartsWith(words: seq<string>, q: string)
  {
    exists k :: 0 <= k < |words| && q <= words[k]
  }

  /** Inserting a list of words adds `path` to a query exactly when one of the words starts with it. */
  lemma {:induction false} SearchAfterInsertAll(ix: Index, words: seq<string>, path: string, q: string)
    ensures Search(InsertAll(ix, words, path), q)
         == Search(ix, q) + (if SomeWordStartsWith(words, q) then {path} else {})
    decreases |words|
  {
    if words != [] {
      var init := words[..|words| - 1];
      var last := words[|words| - 1];
      SearchAfterInsertAll(ix, init, path, q);
      SearchAfterInsert(InsertAll(ix, init, path), last, path, q);
      if SomeWordStartsWith(words, q) {
        var k :| 0 <= k < |words| && q <= words[k];
        if k < |words| - 1 {
          assert init[k] == words[k];
        }
      }
      if SomeWordStartsWith(init, q) {
        var k :| 0 <= k < |init| && q <= init[k];
        assert words[k] == init[k];
      }
    }
  }

  /** A file whose content has been split into (already lower-cased) words. */
  datatype Document = Document(path: string, words: seq<string>)

  /** Indexing documents in order: every word of each document is inserted with its path. */
  ghost function IndexDocs(ix: Index, docs: seq<Document>): Index
    decreases |docs|
  {
    if docs == [] then ix
    else
      var d := docs[|docs| - 1];
      InsertAll(IndexDocs(ix, docs[..|docs| - 1]), d.words, d.path)
  }

  /** The paths of the documents that hold some word starting with `q`. */
  ghost function Contributors(docs: seq<Document>, q: string): set<string>
  {
    set d | d in docs && SomeWordStartsWith(d.words, q) :: d.path
  }

  /**
   After indexing documents, a query finds what it found before plus the path
   of every document with a word starting with the query.  The right-hand
   side depends only on which documents were indexed, not on their order.
   */
  lemma {:induction false} SearchAfterIndexDocs(ix: Index, docs: seq<Document>, q: string)
    ensures Search(IndexDocs(ix, docs), q) == Search(ix, q) + Contributors(docs, q)
    decreases |docs|
  {
    if docs != [] {
      var init := docs[..|docs| - 1];
      var d := docs[|docs| - 1];
      SearchAfterIndexDocs(ix, init, q);
      SearchAfterInsertAll(IndexDocs(ix, init), d.words, d.path, q);
      assert docs == init + [d];
      var extra: set<string> := if SomeWordStartsWith(d.words, q) then {d.path} else {};
      assert Contributors(docs, q) == Contributors(init, q) + extra by {
        forall p | p in Contributors(docs, q)
          ensures p in Contributors(init, q) + extra
        {
          var e :| e in docs && SomeWordStartsWith(e.words, q) && e.path == p;
          if e != d {
            assert e in init;
          }
        }
        forall p | p in Contributors(init, q) + extra
          ensures p in Contributors(docs, q)
        {
          if p in Contributors(init, q) {
            var e :| e in init && SomeWordStartsWith(e.words, q) && e.path == p;
            assert e in docs;
          } else {
            assert d in docs;
          }
        }
      }
    }
  }

  /**
   Indexing the same documents in any order (and any number of times) gives
   the same answer to every query.
   */
  lemma IndexOrderIrrelevant(ix: Index, docs1: seq<Document>, docs2: seq<Document>, q: string)
    requires forall d :: d in docs1 <==> d in docs2
    ensures Search(IndexDocs(ix, docs1), q) == Search(IndexDocs(ix, docs2), q)
  {
    SearchAfterIndexDocs(ix, docs1, q);
    SearchAfterIndexDocs(ix, docs2, q);
  }

  /** The empty query over a fresh index finds exactly the documents holding at least one word. */
  lemma EmptyQueryFindsEveryContributor(docs: seq<Document>)
    ensures Search(IndexDocs(map[], docs), []) == set d | d in docs && d.words != [] :: d.path
  {
    SearchAfterIndexDocs(map[], docs, []);
    forall d | d in docs
      ensures SomeWordStartsWith(d.words, []) <==> d.words != []
    {
      if d.words != [] {
        assert [] <= d.words[0];
      }
    }
  }
}
