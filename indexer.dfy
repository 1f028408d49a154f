/**
 The indexing stage and the query of the command-line tool, without its
 goroutines, channels and file I/O: documents arrive already read and split
 into lower-cased words, in the order the indexer receives them.
 */
module Indexer {
  import WordIndex
  import TrieIndex

  /** indexContent: every word of every document is inserted with the document's path. */
  method IndexContent(trie: TrieIndex.Trie, docs: seq<WordIndex.Document>)
    requires trie.Valid()
    modifies trie, trie.Repr
    ensures trie.Valid() && trie.root == old(trie.root)
    ensures trie.Words == WordIndex.IndexDocs(old(trie.Words), docs)
    ensures fresh(trie.Repr - old(trie.Repr))
  {
    for i := 0 to |docs|
      invariant trie.Valid() && trie.root == old(trie.root)
      invariant trie.Words == WordIndex.IndexDocs(old(trie.Words), docs[..i])
      invariant fresh(trie.Repr - old(trie.Repr))
    {
      assert docs[..i + 1][..i] == docs[..i];
      IndexWords(trie, docs[i].words, docs[i].path);
    }
    assert docs[..|docs|] == docs;
  }

  /** The scanning loop of indexContent for one file: each word, in order, is inserted with the file's path. */
  method IndexWords(trie: TrieIndex.Trie, words: seq<string>, path: string)
    requires trie.Valid()
    modifies trie, trie.Repr
    ensures trie.Valid() && trie.root == old(trie.root)
    ensures trie.Words == WordIndex.InsertAll(old(trie.Words), words, path)
    ensures fresh(trie.Repr - old(trie.Repr))
  {
    for j := 0 to |words|
      invariant trie.Valid() && trie.root == old(trie.root)
      invariant trie.Words == WordIndex.InsertAll(old(trie.Words), words[..j], path)
      invariant fresh(trie.Repr - old(trie.Repr))
    {
      assert words[..j + 1][..j] == words[..j];
      trie.Insert(words[j], path);
    }
    assert words[..|words|] == words;
  }

  /**
   The sequential core of the command: build an empty trie, index the
   documents, and search for the query.  A path is reported exactly when its
   document holds a word that starts with the query, and only once.
   */
  method Grep(docs: seq<WordIndex.Document>, query: string) returns (results: seq<string>)
    ensures forall f :: f in results <==> f in WordIndex.Contributors(docs, query)
    ensures forall i, j :: 0 <= i < j < |results| ==> results[i] != results[j]
  {
    var trie := new TrieIndex.Trie();
    IndexContent(trie, docs);
    results := trie.Search(query);
    WordIndex.SearchAfterIndexDocs(map[], docs, query);
    assert WordIndex.Search(map[], query) == {};
  }

  /** After indexing two documents, a query finds the path of each of the two that has a matching word. */
  lemma SearchTwoDocs(a: WordIndex.Document, b: WordIndex.Document, q: string)
    ensures WordIndex.Search(WordIndex.IndexDocs(map[], [a, b]), q)
         == (if WordIndex.SomeWordStartsWith(a.words, q) then {a.path} else {})
          + (if WordIndex.SomeWordStartsWith(b.words, q) then {b.path} else {})
  {
    WordIndex.SearchAfterIndexDocs(map[], [a, b], q);
    assert WordIndex.Search(map[], q) == {};
  }

  /** A two-word file has a word starting with `q` exactly when one of its two words does. */
  lemma TwoWords(w1: string, w2: string, q: string)
    ensures WordIndex.SomeWordStartsWith([w1, w2], q) <==> q <= w1 || q <= w2
  {
    if q <= w1 {
      assert [w1, w2][0] == w1;
    }
    if q <= w2 {
      assert [w1, w2][1] == w2;
    }
  }

  /**
   Two files, "hello world" and "hello there": a query for "hello" or for the
   empty string reports both, "wor" only the first, and "xyz" neither.
   */
  lemma TwoFileScenario(a: WordIndex.Document, b: WordIndex.Document)
    requires a == WordIndex.Document("a.txt", ["hello", "world"])
    requires b == WordIndex.Document("b.txt", ["hello", "there"])
    ensures WordIndex.Search(WordIndex.IndexDocs(map[], [a, b]), "hello") == {"a.txt", "b.txt"}
    ensures WordIndex.Search(WordIndex.IndexDocs(map[], [a, b]), "wor") == {"a.txt"}
    ensures WordIndex.Search(WordIndex.IndexDocs(map[], [a, b]), "xyz") == {}
    ensures WordIndex.Search(WordIndex.IndexDocs(map[], [a, b]), "") == {"a.txt", "b.txt"}
  {
    SearchTwoDocs(a, b, "hello");
    SearchTwoDocs(a, b, "wor");
    SearchTwoDocs(a, b, "xyz");
    SearchTwoDocs(a, b, "");
    ScenarioWords();
  }

  /** Which of the words of the two scenario files start with each query. */
  lemma ScenarioWords()
    ensures WordIndex.SomeWordStartsWith(["hello", "world"], "hello") && WordIndex.SomeWordStartsWith(["hello", "there"], "hello")
    ensures WordIndex.SomeWordStartsWith(["hello", "world"], "wor") && !WordIndex.SomeWordStartsWith(["hello", "there"], "wor")
    ensures !WordIndex.SomeWordStartsWith(["hello", "world"], "xyz") && !WordIndex.SomeWordStartsWith(["hello", "there"], "xyz")
    ensures WordIndex.SomeWordStartsWith(["hello", "world"], "") && WordIndex.SomeWordStartsWith(["hello", "there"], "")
  {
    TwoWords("hello", "world", "hello");
    TwoWords("hello", "there", "hello");
    TwoWords("hello", "world", "wor");
    TwoWords("hello", "there", "wor");
    TwoWords("hello", "world", "xyz");
    TwoWords("hello", "there", "xyz");
    TwoWords("hello", "world", "");
    TwoWords("hello", "there", "");
    assert "hello"[..3][0] != "wor"[0] && "there"[..3][0] != "wor"[0];
    assert "hello"[..3][0] != "xyz"[0] && "world"[..3][0] != "xyz"[0] && "there"[..3][0] != "xyz"[0];
  }
}
