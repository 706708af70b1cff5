/**
 * The note search engine of main.cpp (`SearchEngine`): a prefix trie of
 * keywords, an inverted keyword index with the stored file texts, and a topic
 * graph of keywords that share a sentence. Uploading a file feeds all three;
 * the queries read them.
 */
module Engine {
  import opened Sorting
  import opened Text
  import opened Utils
  import opened PrefixTrie
  import opened KeywordIndex
  import opened TopicGraph

  const FileNotAvailable: string := "File content not available"

  // ---------------------------------------------------------------------------
  // What an upload does, as functions of the text

  /** The keywords `processKeywords` keeps: those longer than two characters, in order. */
  function LongKeywords(keywords: seq<string>): seq<string> {
    if keywords == [] then []
    else
      var last := keywords[|keywords| - 1];
      LongKeywords(keywords[..|keywords| - 1]) + (if |last| > 2 then [last] else [])
  }

  /** `LongKeywords` keeps each keyword longer than two characters with all its occurrences, and nothing else. */
  lemma {:induction false} LongKeywordsCount(keywords: seq<string>, k: string)
    ensures multiset(LongKeywords(keywords))[k] == if |k| > 2 then multiset(keywords)[k] else 0
  {
    if keywords != [] {
      var init, last := keywords[..|keywords| - 1], keywords[|keywords| - 1];
      assert keywords == init + [last];
      LongKeywordsCount(init, k);
    }
  }

  lemma LongKeywordsSnoc(keywords: seq<string>, k: string)
    ensures LongKeywords(keywords + [k]) == LongKeywords(keywords) + (if |k| > 2 then [k] else [])
  {
    assert (keywords + [k])[..|keywords|] == keywords;
  }

  /** One more keyword for `processKeywords`: indexed when it is longer than two characters, skipped otherwise. */
  lemma IndexOneMore(index: Index, keywords: seq<string>, i: nat, filename: string)
    requires i < |keywords|
    ensures AddKeywordsSpec(index, LongKeywords(keywords[..i + 1]), filename)
      == if |keywords[i]| > 2 then AddKeywordSpec(AddKeywordsSpec(index, LongKeywords(keywords[..i]), filename), keywords[i], filename)
         else AddKeywordsSpec(index, LongKeywords(keywords[..i]), filename)
  {
    assert keywords[..i + 1] == keywords[..i] + [keywords[i]];
    LongKeywordsSnoc(keywords[..i], keywords[i]);
    if |keywords[i]| > 2 {
      AddKeywordsSnoc(index, LongKeywords(keywords[..i]), keywords[i], filename);
    } else {
      assert LongKeywords(keywords[..i]) + [] == LongKeywords(keywords[..i]);
    }
  }

  /** The keywords longer than two characters among the first `i + 1`. */
  lemma LongSetOneMore(keywords: seq<string>, i: nat)
    requires i < |keywords|
    ensures (set k | k in keywords[..i + 1] && |k| > 2)
      == (set k | k in keywords[..i] && |k| > 2) + (if |keywords[i]| > 2 then {keywords[i]} else {})
  {
    assert keywords[..i + 1] == keywords[..i] + [keywords[i]];
  }

  /** Tokens are all longer than two characters, so `processKeywords` keeps every one of them. */
  lemma {:induction false} LongTokens(keywords: seq<string>)
    requires forall i :: 0 <= i < |keywords| ==> IsToken(keywords[i])
    ensures LongKeywords(keywords) == keywords
    ensures (set k | k in keywords && |k| > 2) == set k | k in keywords
  {
    if keywords != [] {
      var init := keywords[..|keywords| - 1];
      LongTokens(init);
      assert keywords == init + [keywords[|keywords| - 1]];
    }
  }

  /** The keywords of one sentence: its tokens. */
  function SentenceKeywords(sentence: string): seq<string> {
    Tokens(Words(sentence))
  }

  /** `incrementEdgeWeight(ks[i], ks[j])` for `j` from `i + 1` up to `n - 1`. */
  function EdgeOps(ks: seq<string>, i: nat, n: nat): seq<Op>
    requires i < n <= |ks|
  {
    if n == i + 1 then [] else EdgeOps(ks, i, n - 1) + [AddEdge(ks[i], ks[n - 1])]
  }

  /** For each `i < n` in turn: `addTopic(ks[i])`, then the edges from `ks[i]` to every later keyword. */
  function TokenOps(ks: seq<string>, n: nat): seq<Op>
    requires n <= |ks|
  {
    if n == 0 then [] else TokenOps(ks, n - 1) + [AddTopic(ks[n - 1])] + EdgeOps(ks, n - 1, |ks|)
  }

  /** The steps for the keywords of each sentence, sentence by sentence. */
  function SentenceOps(sentences: seq<string>): seq<Op> {
    if sentences == [] then []
    else
      var ks := SentenceKeywords(sentences[|sentences| - 1]);
      SentenceOps(sentences[..|sentences| - 1]) + TokenOps(ks, |ks|)
  }

  /** Every step `buildGraphFromSentences(content)` takes on the topic graph, in order. */
  function GraphOps(content: string): seq<Op> {
    SentenceOps(Sentences(content))
  }

  // ---------------------------------------------------------------------------
  // Which steps those are

  /** The edge steps from `ks[i]` are exactly those to the keywords after it, below `n`. */
  lemma {:induction false} EdgeOpsMembers(ks: seq<string>, i: nat, n: nat, a: string, b: string)
    requires i < n <= |ks|
    ensures AddEdge(a, b) in EdgeOps(ks, i, n) <==> a == ks[i] && exists j :: i < j < n && ks[j] == b
  {
    if n > i + 1 {
      EdgeOpsMembers(ks, i, n - 1, a, b);
    }
  }

  /** Edge steps add no topic. */
  lemma {:induction false} EdgeOpsNoTopic(ks: seq<string>, i: nat, n: nat, t: string)
    requires i < n <= |ks|
    ensures AddTopic(t) !in EdgeOps(ks, i, n)
  {
    if n > i + 1 {
      EdgeOpsNoTopic(ks, i, n - 1, t);
    }
  }

  /** The steps for one sentence make exactly its keywords topics. */
  lemma {:induction false} TokenOpsTopics(ks: seq<string>, n: nat, t: string)
    requires n <= |ks|
    ensures AddTopic(t) in TokenOps(ks, n) <==> exists i :: 0 <= i < n && ks[i] == t
  {
    if n > 0 {
      TokenOpsTopics(ks, n - 1, t);
      TokenOpsTopicStep(ks, n, t);
      if AddTopic(t) in TokenOps(ks, n) {
        if t != ks[n - 1] {
          var j :| 0 <= j < n - 1 && ks[j] == t;
          assert 0 <= j < n && ks[j] == t;
        }
      } else {
        forall i | 0 <= i < n ensures ks[i] != t {
          if i < n - 1 {
            assert !(0 <= i < n - 1 && ks[i] == t);
          }
        }
      }
    }
  }

  /** The steps for the first `n` keywords add the topic `t` when those for the first `n - 1` do, or when `t` is keyword `n - 1`. */
  lemma {:induction false} TokenOpsTopicStep(ks: seq<string>, n: nat, t: string)
    requires 0 < n <= |ks|
    ensures AddTopic(t) in TokenOps(ks, n) <==> AddTopic(t) in TokenOps(ks, n - 1) || t == ks[n - 1]
  {
    var prev, x, e := TokenOps(ks, n - 1), AddTopic(ks[n - 1]), EdgeOps(ks, n - 1, |ks|);
    EdgeOpsNoTopic(ks, n - 1, |ks|, t);
    assert TokenOps(ks, n) == (prev + [x]) + e;
    assert AddTopic(t) in prev + [x] <==> AddTopic(t) in prev || AddTopic(t) == x;
  }

  /** The steps for one sentence bump the pair `(ks[i], ks[j])` for every pair of positions `i < j`, and no other pair. */
  lemma {:induction false} TokenOpsEdges(ks: seq<string>, n: nat, a: string, b: string)
    requires n <= |ks|
    ensures AddEdge(a, b) in TokenOps(ks, n) <==> exists i, j :: 0 <= i < n && i < j < |ks| && ks[i] == a && ks[j] == b
  {
    if n > 0 {
      TokenOpsEdges(ks, n - 1, a, b);
      EdgeOpsMembers(ks, n - 1, |ks|, a, b);
      if AddEdge(a, b) in EdgeOps(ks, n - 1, |ks|) {
        var j :| n - 1 < j < |ks| && ks[j] == b;
        assert 0 <= n - 1 < n && n - 1 < j < |ks| && ks[n - 1] == a && ks[j] == b;
      }
    }
  }

  // ---------------------------------------------------------------------------
  // How often a pair is bumped

  /** Keywords `x` then `y` are the pair `a`, `b`, in either order. */
  predicate IsPair(x: string, y: string, a: string, b: string) {
    (x == a && y == b) || (x == b && y == a)
  }

  /** The positions `(i, j)` with `i < j < n` in row `i` of `ks` that hold the pair `a`, `b`. */
  function RowPairs(ks: seq<string>, i: nat, n: nat, a: string, b: string): set<(int, int)>
    requires i < n <= |ks|
  {
    set j | i < j < n && IsPair(ks[i], ks[j], a, b) :: (i, j)
  }

  /** The positions `(i, j)` with `i < n` and `i < j < |ks|` that hold the pair `a`, `b`. */
  function PositionPairs(ks: seq<string>, n: nat, a: string, b: string): set<(int, int)>
    requires n <= |ks|
  {
    set i, j | 0 <= i < n && i < j < |ks| && IsPair(ks[i], ks[j], a, b) :: (i, j)
  }

  /** The number of position pairs holding `a`, `b` in each sentence's keywords, summed over the sentences. */
  function SentencePairs(sentences: seq<string>, a: string, b: string): nat {
    if sentences == [] then 0
    else
      var ks := SentenceKeywords(sentences[|sentences| - 1]);
      SentencePairs(sentences[..|sentences| - 1], a, b) + |PositionPairs(ks, |ks|, a, b)|
  }

  /** Bumps of a pair add up over consecutive runs of steps. */
  lemma {:induction false} PairCountConcat(x: seq<Op>, y: seq<Op>, a: string, b: string)
    ensures PairCount(x + y, a, b) == PairCount(x, a, b) + PairCount(y, a, b)
  {
    if y == [] {
      assert x + y == x;
    } else {
      PairCountConcat(x, y[..|y| - 1], a, b);
      assert (x + y)[..|x + y| - 1] == x + y[..|y| - 1];
    }
  }

  /** One step bumps the pair once when it adds an edge between them. */
  lemma PairCountSingle(op: Op, a: string, b: string)
    ensures PairCount([op], a, b) == PairHit(op, a, b)
  {
    assert [op][..0] == [];
  }

  /** The edge steps from `ks[i]` bump the pair once for every later position below `n` that completes it. */
  lemma {:induction false} EdgeOpsPairCount(ks: seq<string>, i: nat, n: nat, a: string, b: string)
    requires i < n <= |ks|
    ensures PairCount(EdgeOps(ks, i, n), a, b) == |RowPairs(ks, i, n, a, b)|
  {
    if n == i + 1 {
      assert RowPairs(ks, i, n, a, b) == {};
    } else {
      var last := AddEdge(ks[i], ks[n - 1]);
      EdgeOpsPairCount(ks, i, n - 1, a, b);
      PairCountConcat(EdgeOps(ks, i, n - 1), [last], a, b);
      PairCountSingle(last, a, b);
      RowPairsStep(ks, i, n, a, b);
    }
  }

  /** Row `i` below `n` is row `i` below `n - 1`, plus `(i, n - 1)` when that holds the pair. */
  lemma RowPairsStep(ks: seq<string>, i: nat, n: nat, a: string, b: string)
    requires i + 1 < n <= |ks|
    ensures |RowPairs(ks, i, n, a, b)| == |RowPairs(ks, i, n - 1, a, b)| + (if IsPair(ks[i], ks[n - 1], a, b) then 1 else 0)
  {
    var R := RowPairs(ks, i, n - 1, a, b);
    if IsPair(ks[i], ks[n - 1], a, b) {
      assert RowPairs(ks, i, n, a, b) == R + {(i, n - 1)};
      assert (i, n - 1) !in R;
    } else {
      assert RowPairs(ks, i, n, a, b) == R;
    }
  }

  /** Position pairs below `n` are those below `n - 1` plus row `n - 1`. */
  lemma PositionPairsStep(ks: seq<string>, n: nat, a: string, b: string)
    requires 0 < n <= |ks|
    ensures |PositionPairs(ks, n, a, b)| == |PositionPairs(ks, n - 1, a, b)| + |RowPairs(ks, n - 1, |ks|, a, b)|
  {
    var P, R := PositionPairs(ks, n - 1, a, b), RowPairs(ks, n - 1, |ks|, a, b);
    forall p | p in PositionPairs(ks, n, a, b) ensures p in P + R {
      var i, j :| 0 <= i < n && i < j < |ks| && IsPair(ks[i], ks[j], a, b) && p == (i, j);
      if i < n - 1 {
        assert p in P;
      } else {
        assert p in R;
      }
    }
    assert PositionPairs(ks, n, a, b) == P + R;
    assert P * R == {};
  }

  /**
   * The steps for one sentence bump the pair `a`, `b` exactly once for every
   * pair of positions `i < j` whose keywords are `a` and `b`, in either order.
   */
  lemma {:induction false} TokenOpsPairCount(ks: seq<string>, n: nat, a: string, b: string)
    requires n <= |ks|
    ensures PairCount(TokenOps(ks, n), a, b) == |PositionPairs(ks, n, a, b)|
  {
    if n == 0 {
      assert PositionPairs(ks, 0, a, b) == {};
    } else {
      var c, c0, c1 := PairCount(TokenOps(ks, n), a, b), PairCount(TokenOps(ks, n - 1), a, b), PairCount(EdgeOps(ks, n - 1, |ks|), a, b);
      var p, p0, r := |PositionPairs(ks, n, a, b)|, |PositionPairs(ks, n - 1, a, b)|, |RowPairs(ks, n - 1, |ks|, a, b)|;
      assert c == c0 + c1 by { TokenOpsPairStep(ks, n, a, b); }
      assert p == p0 + r by { PositionPairsStep(ks, n, a, b); }
      assert c1 == r by { EdgeOpsPairCount(ks, n - 1, |ks|, a, b); }
      assert c0 == p0 by { TokenOpsPairCount(ks, n - 1, a, b); }
    }
  }

  /** The steps for `n` keywords bump the pair as often as those for `n - 1` and the edge steps from keyword `n - 1`. */
  lemma TokenOpsPairStep(ks: seq<string>, n: nat, a: string, b: string)
    requires 0 < n <= |ks|
    ensures PairCount(TokenOps(ks, n), a, b) == PairCount(TokenOps(ks, n - 1), a, b) + PairCount(EdgeOps(ks, n - 1, |ks|), a, b)
  {
    var prev, x, e := TokenOps(ks, n - 1), AddTopic(ks[n - 1]), EdgeOps(ks, n - 1, |ks|);
    assert TokenOps(ks, n) == (prev + [x]) + e;
    PairCountConcat(prev + [x], e, a, b);
    PairCountConcat(prev, [x], a, b);
    PairCountSingle(x, a, b);
  }

  /** The steps for several sentences bump the pair as often as the sentences' position pairs, summed. */
  lemma {:induction false} SentenceOpsPairCount(sentences: seq<string>, a: string, b: string)
    ensures PairCount(SentenceOps(sentences), a, b) == SentencePairs(sentences, a, b)
  {
    if sentences != [] {
      var init, ks := sentences[..|sentences| - 1], SentenceKeywords(sentences[|sentences| - 1]);
      SentenceOpsPairCount(init, a, b);
      TokenOpsPairCount(ks, |ks|, a, b);
      PairCountConcat(SentenceOps(init), TokenOps(ks, |ks|), a, b);
    }
  }

  /**
   * Building the graph from a text, starting where `a` and `b` are not
   * connected, connects them exactly when some sentence holds both (at two
   * positions), and the two weights then add up to one more than the number
   * of such position pairs over all sentences.
   */
  lemma UploadPairWeights(g: Adjacency, content: string, a: string, b: string)
    requires ValidGraph(g) && a != b && !Connected(g, a, b)
    ensures var n := SentencePairs(Sentences(content), a, b); var h := Apply(g, GraphOps(content));
      && (Connected(h, a, b) <==> n > 0)
      && W(h, a, b) + W(h, b, a) == (if n == 0 then 0 else n + 1)
  {
    SentenceOpsPairCount(Sentences(content), a, b);
    PairWeights(g, GraphOps(content), a, b);
  }

  /** Keyword `i`'s topic step, then its edge steps, are what the steps for `i + 1` keywords add to those for `i`. */
  lemma TopicStep(gs: Adjacency, ks: seq<string>, i: nat)
    requires i < |ks|
    ensures Apply(gs, TokenOps(ks, i) + [AddTopic(ks[i])]) == AddTopicSpec(Apply(gs, TokenOps(ks, i)), ks[i])
    ensures TokenOps(ks, i + 1) == TokenOps(ks, i) + [AddTopic(ks[i])] + EdgeOps(ks, i, |ks|)
  {
    ApplySnoc(gs, TokenOps(ks, i), AddTopic(ks[i]));
  }

  /** One more edge step from keyword `i`, to keyword `j`. */
  lemma EdgeStep(gs: Adjacency, before: seq<Op>, ks: seq<string>, i: nat, j: nat)
    requires i < j < |ks|
    ensures Apply(gs, before + EdgeOps(ks, i, j + 1)) == AddEdgeSpec(Apply(gs, before + EdgeOps(ks, i, j)), ks[i], ks[j])
  {
    assert before + EdgeOps(ks, i, j + 1) == before + EdgeOps(ks, i, j) + [AddEdge(ks[i], ks[j])];
    ApplySnoc(gs, before + EdgeOps(ks, i, j), AddEdge(ks[i], ks[j]));
  }

  /** The steps for several sentences are the steps for each one. */
  lemma {:induction false} SentenceOpsMembers(sentences: seq<string>, op: Op)
    ensures op in SentenceOps(sentences) <==>
      exists k :: 0 <= k < |sentences| && op in TokenOps(SentenceKeywords(sentences[k]), |SentenceKeywords(sentences[k])|)
  {
    if sentences != [] {
      var n := |sentences|;
      var init, ks := sentences[..n - 1], SentenceKeywords(sentences[n - 1]);
      SentenceOpsMembers(init, op);
      assert SentenceOps(sentences) == SentenceOps(init) + TokenOps(ks, |ks|);
      if op in SentenceOps(sentences) && op in SentenceOps(init) {
        var k :| 0 <= k < |init| && op in TokenOps(SentenceKeywords(init[k]), |SentenceKeywords(init[k])|);
        assert init[k] == sentences[k];
      }
      if exists k :: 0 <= k < n && op in TokenOps(SentenceKeywords(sentences[k]), |SentenceKeywords(sentences[k])|) {
        var k :| 0 <= k < n && op in TokenOps(SentenceKeywords(sentences[k]), |SentenceKeywords(sentences[k])|);
        if k < n - 1 {
          assert init[k] == sentences[k];
        }
      }
    }
  }

  /**
   * Building the graph from a text makes every keyword of every sentence a
   * topic, and removes no topic that was there.
   */
  lemma GraphOpsVertices(g: Adjacency, content: string)
    ensures g.Keys <= Apply(g, GraphOps(content)).Keys
    ensures forall k, s :: s in Sentences(content) && k in SentenceKeywords(s) ==> k in Apply(g, GraphOps(content))
  {
    var ops := GraphOps(content);
    ApplyKeys(g, ops);
    forall k, s | s in Sentences(content) && k in SentenceKeywords(s)
      ensures k in Apply(g, ops)
    {
      var ss := Sentences(content);
      var m :| 0 <= m < |ss| && ss[m] == s;
      var ks := SentenceKeywords(s);
      var i :| 0 <= i < |ks| && ks[i] == k;
      TokenOpsTopics(ks, |ks|, k);
      SentenceOpsMembers(ss, AddTopic(k));
    }
  }

  // ---------------------------------------------------------------------------
  // The engine object

  class SearchEngine {
    const trie: Trie
    const topicGraph: Graph
    const keywordIndex: HashMap
    var uploadedFiles: seq<string>

    /** Every part keeps the invariant its own operations maintain. */
    ghost predicate Valid()
      reads this, trie, topicGraph, keywordIndex
    {
      && trie.Valid()
      && ValidIndex(keywordIndex.keywordIndex)
      && ValidGraph(topicGraph.adjacencyList)
    }

    constructor ()
      ensures Valid()
      ensures trie.Words() == {} && keywordIndex.keywordIndex == map[] && keywordIndex.fileContents == map[]
      ensures topicGraph.adjacencyList == map[] && uploadedFiles == []
    {
      trie := new Trie();
      topicGraph := new Graph();
      keywordIndex := new HashMap();
      uploadedFiles := [];
    }

    /**
     * `SearchEngine::processKeywords`: every keyword longer than two
     * characters goes into the trie and is added to the index for `filename`;
     * shorter ones are skipped.
     */
    method ProcessKeywords(keywords: seq<string>, filename: string)
      requires Valid()
      modifies trie, keywordIndex
      ensures Valid()
      ensures trie.Words() == old(trie.Words()) + set k | k in keywords && |k| > 2
      ensures keywordIndex.keywordIndex == AddKeywordsSpec(old(keywordIndex.keywordIndex), LongKeywords(keywords), filename)
      ensures keywordIndex.fileContents == old(keywordIndex.fileContents)
    {
      for i := 0 to |keywords|
        invariant Valid()
        invariant trie.Words() == old(trie.Words()) + set k | k in keywords[..i] && |k| > 2
        invariant keywordIndex.keywordIndex == AddKeywordsSpec(old(keywordIndex.keywordIndex), LongKeywords(keywords[..i]), filename)
        invariant keywordIndex.fileContents == old(keywordIndex.fileContents)
      {
        IndexOneMore(old(keywordIndex.keywordIndex), keywords, i, filename);
        LongSetOneMore(keywords, i);
        ProcessKeyword(keywords[i], filename);
      }
      assert keywords[..|keywords|] == keywords;
    }

    /** One turn of the loop in `processKeywords`. */
    method ProcessKeyword(keyword: string, filename: string)
      requires Valid()
      modifies trie, keywordIndex
      ensures Valid()
      ensures trie.Words() == old(trie.Words()) + (if |keyword| > 2 then {keyword} else {})
      ensures keywordIndex.keywordIndex == if |keyword| > 2 then AddKeywordSpec(old(keywordIndex.keywordIndex), keyword, filename) else old(keywordIndex.keywordIndex)
      ensures keywordIndex.fileContents == old(keywordIndex.fileContents)
    {
      if |keyword| > 2 {
        trie.Insert(keyword);
        AddKeywordValid(keywordIndex.keywordIndex, keyword, filename);
        keywordIndex.AddKeyword(keyword, filename);
      }
    }

    /**
     * `SearchEngine::buildGraphFromSentences`: for each sentence, for each of
     * its keywords in turn, add the keyword as a topic and bump its edge to
     * every later keyword of the sentence.
     */
    method BuildGraphFromSentences(content: string)
      requires ValidGraph(topicGraph.adjacencyList)
      modifies topicGraph
      ensures topicGraph.adjacencyList == Apply(old(topicGraph.adjacencyList), GraphOps(content))
      ensures ValidGraph(topicGraph.adjacencyList)
    {
      var sentences;
      ghost var chunks;
      sentences, chunks := SplitIntoSentences(content);
      ghost var g0 := topicGraph.adjacencyList;
      for s := 0 to |sentences|
        invariant topicGraph.adjacencyList == Apply(g0, SentenceOps(sentences[..s]))
      {
        var keywords := Tokenize(sentences[s]);
        AddSentence(keywords);
        assert sentences[..s + 1][..s] == sentences[..s];
        ApplyConcat(g0, SentenceOps(sentences[..s]), TokenOps(keywords, |keywords|));
      }
      assert sentences[..|sentences|] == sentences;
      ApplyValid(g0, GraphOps(content));
    }

    /** The body of the sentence loop in `buildGraphFromSentences`, for the keywords of one sentence. */
    method AddSentence(keywords: seq<string>)
      modifies topicGraph
      ensures topicGraph.adjacencyList == Apply(old(topicGraph.adjacencyList), TokenOps(keywords, |keywords|))
    {
      ghost var gs := topicGraph.adjacencyList;
      for i := 0 to |keywords|
        invariant topicGraph.adjacencyList == Apply(gs, TokenOps(keywords, i))
      {
        AddKeyword(keywords, i, gs);
      }
    }

    /** One turn of the keyword loop of `buildGraphFromSentences`: add keyword `i` as a topic, then its edges. */
    method AddKeyword(keywords: seq<string>, i: nat, ghost gs: Adjacency)
      requires i < |keywords| && topicGraph.adjacencyList == Apply(gs, TokenOps(keywords, i))
      modifies topicGraph
      ensures topicGraph.adjacencyList == Apply(gs, TokenOps(keywords, i + 1))
    {
      TopicStep(gs, keywords, i);
      topicGraph.AddTopic(keywords[i]);
      AddEdgesFrom(keywords, i, gs, TokenOps(keywords, i) + [AddTopic(keywords[i])]);
    }

    /** The inner loop of `buildGraphFromSentences`: bump the edge from `keywords[i]` to every later keyword. */
    method AddEdgesFrom(keywords: seq<string>, i: nat, ghost gs: Adjacency, ghost before: seq<Op>)
      requires i < |keywords|
      requires topicGraph.adjacencyList == Apply(gs, before)
      modifies topicGraph
      ensures topicGraph.adjacencyList == Apply(gs, before + EdgeOps(keywords, i, |keywords|))
    {
      assert before + EdgeOps(keywords, i, i + 1) == before;
      for j := i + 1 to |keywords|
        invariant topicGraph.adjacencyList == Apply(gs, before + EdgeOps(keywords, i, j))
      {
        AddEdgeTo(keywords, i, j, gs, before);
      }
    }

    /** One turn of the inner loop of `buildGraphFromSentences`: bump the edge from `keywords[i]` to `keywords[j]`. */
    method AddEdgeTo(keywords: seq<string>, i: nat, j: nat, ghost gs: Adjacency, ghost before: seq<Op>)
      requires i < j < |keywords|
      requires topicGraph.adjacencyList == Apply(gs, before + EdgeOps(keywords, i, j))
      modifies topicGraph
      ensures topicGraph.adjacencyList == Apply(gs, before + EdgeOps(keywords, i, j + 1))
    {
      EdgeStep(gs, before, keywords, i, j);
      topicGraph.IncrementEdgeWeight(keywords[i], keywords[j]);
    }

    /**
     * `SearchEngine::uploadFile`: store the text, index its tokens, build the
     * topic graph from its sentences and record the file name, duplicates
     * included.
     */
    method UploadFile(filename: string, content: string)
      requires Valid()
      modifies this, trie, topicGraph, keywordIndex
      ensures Valid()
      ensures keywordIndex.fileContents == old(keywordIndex.fileContents)[filename := content]
      ensures keywordIndex.keywordIndex == AddKeywordsSpec(old(keywordIndex.keywordIndex), Tokens(Words(content)), filename)
      ensures trie.Words() == old(trie.Words()) + set k | k in Tokens(Words(content))
      ensures topicGraph.adjacencyList == Apply(old(topicGraph.adjacencyList), GraphOps(content))
      ensures uploadedFiles == old(uploadedFiles) + [filename]
    {
      var keywords := Tokenize(content);
      LongTokens(keywords);
      keywordIndex.StoreFileContent(filename, content);
      ProcessKeywords(keywords, filename);
      ghost var words, index, files := trie.Words(), keywordIndex.keywordIndex, keywordIndex.fileContents;
      assert trie.Valid() && ValidIndex(index);
      BuildGraphFromSentences(content);
      assert trie.Words() == words && keywordIndex.keywordIndex == index && keywordIndex.fileContents == files;
      uploadedFiles := uploadedFiles + [filename];
    }

    /**
     * `SearchEngine::search`: the keyword's postings, most frequent first;
     * none for a keyword never indexed.
     */
    method Search(keyword: string) returns (files: seq<FileInfo>)
      ensures multiset(files) == multiset(Postings(keywordIndex.keywordIndex, keyword))
      ensures SortedDesc(files, Frequency)
      ensures keyword !in keywordIndex.keywordIndex ==> files == []
    {
      files := keywordIndex.GetFiles(keyword);
      files := SortDesc(files, Frequency);
    }

    /** `SearchEngine::getRelatedTopics`: the graph's walk with the default depth of 2, so the topics 2 or 3 hops away. */
    method GetRelatedTopics(topic: string) returns (related: seq<Related>)
      ensures topic !in topicGraph.adjacencyList ==> related == []
      ensures topic in topicGraph.adjacencyList ==>
        Firsts(related) == Within(topicGraph.adjacencyList, topic, 3) - Within(topicGraph.adjacencyList, topic, 1)
      ensures SortedDesc(related, RelWeight)
      ensures forall p :: p in related ==> p.0 != topic && p.0 !in Dests(Edges(topicGraph.adjacencyList, topic))
      ensures forall p :: p in related ==> HasEdgeTo(topicGraph.adjacencyList, p.0, p.1)
    {
      related := topicGraph.GetRelatedTopics(topic, 2);
    }

    /**
     * `SearchEngine::getLearningPath`: empty for a topic that is not a vertex,
     * otherwise whatever `Graph::getLearningPath(topic, 8)` computes, given here
     * as `learningPath`.
     */
    method GetLearningPath(topic: string, learningPath: (Adjacency, string, int) -> seq<string>) returns (path: seq<string>)
      ensures !topicGraph.ContainsTopic(topic) ==> path == []
      ensures topicGraph.ContainsTopic(topic) ==> path == learningPath(topicGraph.adjacencyList, topic, 8)
    {
      if !topicGraph.ContainsTopic(topic) {
        return [];
      }
      path := learningPath(topicGraph.GetAdjacencyList(), topic, 8);
    }

    /**
     * `SearchEngine::getSnippet`: a fixed message for a file with no stored
     * text, otherwise the snippet of 8 words on each side of the keyword.
     */
    method GetSnippet(filename: string, keyword: string) returns (snippet: string)
      ensures !keywordIndex.HasFileContent(filename) ==> snippet == FileNotAvailable
      ensures keywordIndex.HasFileContent(filename) ==> snippet == Snippet(keywordIndex.GetFileContent(filename), keyword, 8)
    {
      if !keywordIndex.HasFileContent(filename) {
        return FileNotAvailable;
      }
      var content := keywordIndex.GetFileContent(filename);
      snippet := ExtractSnippet(content, keyword, 8);
    }

    /** `SearchEngine::getUploadedFiles`. */
    function GetUploadedFiles(): seq<string>
      reads this
    {
      uploadedFiles
    }
  }

  /** The sort key of `search`. */
  function Frequency(fi: FileInfo): int {
    fi.frequency
  }

  /**
   * After an upload, each of the file's tokens is indexed for the file with
   * its number of occurrences in the text added to what was recorded before,
   * other files' counts are untouched, and a token the file had no posting for
   * now has exactly one.
   */
  lemma UploadIndexes(index: Index, content: string, filename: string, k: string, g: string)
    ensures var after := Postings(AddKeywordsSpec(index, Tokens(Words(content)), filename), k);
      && FrequencyOf(after, g) == FrequencyOf(Postings(index, k), g) + (if g == filename then multiset(Tokens(Words(content)))[k] else 0)
      && (g == filename && k in Tokens(Words(content)) && Entries(Postings(index, k), g) == 0 ==> Entries(after, g) == 1)
  {
    AddKeywordsFrequency(index, Tokens(Words(content)), filename, k, g);
    AddKeywordsEntries(index, Tokens(Words(content)), filename, k, g);
  }
}
