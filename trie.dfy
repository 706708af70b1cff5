/**
 * The prefix trie behind autocomplete (`Trie` in trie.h/trie.cpp).
 *
 * Each `TrieNode` of the source owns a map from characters to child nodes, an
 * end-of-word mark and the stored word. Here the nodes live in an arena: a
 * sequence of `TrieNode` values whose children are indices into that
 * sequence, the root being node 0. Creating a child appends a node, as
 * `new TrieNode()` allocates one. The ghost `paths` give, for every node, the
 * characters on its root-to-node path.
 */
module PrefixTrie {
  import opened Sorting

  datatype Option<T> = None | Some(value: T)

  datatype TrieNode = TrieNode(children: map<char, nat>, isEndOfWord: bool, word: string)

  /** `TrieNode::TrieNode()`: no children, not the end of a word. */
  const EmptyNode := TrieNode(map[], false, "")

  /** The node reached by following the characters of `s` from the root, if every edge exists. */
  ghost function Find(nodes: seq<TrieNode>, s: string): (r: Option<nat>)
    ensures r.Some? ==> r.value < |nodes|
  {
    if s == [] then (if |nodes| > 0 then Some(0) else None)
    else match Find(nodes, s[..|s| - 1])
      case None => None
      case Some(k) =>
        var c := s[|s| - 1];
        if c in nodes[k].children && nodes[k].children[c] < |nodes| then Some(nodes[k].children[c]) else None
  }

  /**
   * The shape of the arena: the root has the empty path, every child edge leads
   * to a later node whose path extends its parent's by the edge's character,
   * every node is reached from the root by its own path, and a marked node
   * stores exactly its path.
   */
  ghost predicate Wf(nodes: seq<TrieNode>, paths: seq<string>) {
    && |nodes| >= 1 && |paths| == |nodes| && paths[0] == []
    && (forall i, c :: 0 <= i < |nodes| && c in nodes[i].children ==>
          i < nodes[i].children[c] < |nodes| && paths[nodes[i].children[c]] == paths[i] + [c])
    && (forall i :: 0 <= i < |nodes| ==> Find(nodes, paths[i]) == Some(i))
    && (forall i :: 0 <= i < |nodes| && nodes[i].isEndOfWord ==> nodes[i].word == paths[i])
  }

  /** The words the trie holds: those stored at marked nodes. */
  ghost function WordsOf(nodes: seq<TrieNode>): set<string> {
    set i | 0 <= i < |nodes| && nodes[i].isEndOfWord :: nodes[i].word
  }

  // ---------------------------------------------------------------------------
  // Lemmas about walking the arena

  /** A walk that succeeds ends at the node whose path is the walked string. */
  lemma {:induction false} FindGivesPath(nodes: seq<TrieNode>, paths: seq<string>, s: string)
    requires Wf(nodes, paths)
    ensures Find(nodes, s).Some? ==> paths[Find(nodes, s).value] == s
  {
    if s != [] && Find(nodes, s).Some? {
      var p := s[..|s| - 1];
      FindGivesPath(nodes, paths, p);
      assert p + [s[|s| - 1]] == s;
    }
  }

  /** If a walk succeeds, so does the walk along each of its prefixes. */
  lemma {:induction false} FindPrefixClosed(nodes: seq<TrieNode>, s: string, n: nat)
    requires n <= |s|
    requires Find(nodes, s).Some?
    ensures Find(nodes, s[..n]).Some?
    decreases |s| - n
  {
    if n < |s| {
      var p := s[..|s| - 1];
      assert p[..n] == s[..n];
      FindPrefixClosed(nodes, p, n);
    } else {
      assert s[..n] == s;
    }
  }

  /** When the walk along the first `n` characters of `s` fails, no stored word starts with `s`. */
  lemma MissingPathNoWords(nodes: seq<TrieNode>, paths: seq<string>, s: string, n: nat)
    requires Wf(nodes, paths)
    requires n <= |s| && Find(nodes, s[..n]) == None
    ensures forall w :: w in WordsOf(nodes) ==> !(s <= w)
  {
    forall w | w in WordsOf(nodes) ensures !(s <= w) {
      var j :| 0 <= j < |nodes| && nodes[j].isEndOfWord && nodes[j].word == w;
      assert Find(nodes, w) == Some(j);
      PrefixTake(s, w, n);
      if n <= |w| {
        FindPrefixClosed(nodes, w, n);
        assert w[..n] != s[..n];
      }
    }
  }

  lemma PrefixTake(s: string, w: string, n: nat)
    requires n <= |s|
    ensures s <= w ==> n <= |w| && w[..n] == s[..n]
  {
    if s <= w {
      assert w[..|s|] == s;
      assert w[..|s|][..n] == w[..n];
    }
  }

  /** The string walked to node `k` is a stored word exactly when `k` is marked. */
  lemma InWordsIff(nodes: seq<TrieNode>, paths: seq<string>, s: string, k: nat)
    requires Wf(nodes, paths)
    requires Find(nodes, s) == Some(k)
    ensures s in WordsOf(nodes) <==> nodes[k].isEndOfWord
  {
    FindGivesPath(nodes, paths, s);
    if s in WordsOf(nodes) {
      var j :| 0 <= j < |nodes| && nodes[j].isEndOfWord && nodes[j].word == s;
      assert Find(nodes, paths[j]) == Some(j);
    }
  }

  /** Every stored word that properly extends the path of node `k` leaves `k` through one of its edges. */
  lemma WordsLeaveThroughEdges(nodes: seq<TrieNode>, paths: seq<string>, k: nat)
    requires Wf(nodes, paths) && k < |nodes|
    ensures forall w :: w in WordsOf(nodes) && paths[k] <= w && |w| > |paths[k]| ==>
      w[|paths[k]|] in nodes[k].children
  {
    var p := paths[k];
    forall w | w in WordsOf(nodes) && p <= w && |w| > |p|
      ensures w[|p|] in nodes[k].children
    {
      var j :| 0 <= j < |nodes| && nodes[j].isEndOfWord && nodes[j].word == w;
      assert Find(nodes, w) == Some(j);
      FindPrefixClosed(nodes, w, |p| + 1);
      var q := w[..|p| + 1];
      assert q[..|q| - 1] == p && q[|q| - 1] == w[|p|];
    }
  }

  /** Adding a child of `k` along a fresh character `c` keeps every walk that succeeded. */
  lemma {:induction false} FindExtend(nodes: seq<TrieNode>, k: nat, c: char, s: string)
    requires k < |nodes| && c !in nodes[k].children
    requires Find(nodes, s).Some?
    ensures Find(nodes[k := nodes[k].(children := nodes[k].children[c := |nodes|])] + [EmptyNode], s)
         == Find(nodes, s)
  {
    if s != [] {
      FindExtend(nodes, k, c, s[..|s| - 1]);
    }
  }

  /** Changing only marks and stored words leaves every walk as it was. */
  lemma {:induction false} FindIgnoresMarks(nodes: seq<TrieNode>, k: nat, w: string, s: string)
    requires k < |nodes|
    ensures Find(nodes[k := nodes[k].(isEndOfWord := true, word := w)], s) == Find(nodes, s)
  {
    if s != [] {
      FindIgnoresMarks(nodes, k, w, s[..|s| - 1]);
    }
  }

  /** The arena after `current->children[c] = new TrieNode()`: still well formed, same words. */
  lemma AddChild(nodes: seq<TrieNode>, paths: seq<string>, k: nat, c: char)
    requires Wf(nodes, paths) && k < |nodes| && c !in nodes[k].children
    ensures var nodes' := nodes[k := nodes[k].(children := nodes[k].children[c := |nodes|])] + [EmptyNode];
      && Wf(nodes', paths + [paths[k] + [c]])
      && WordsOf(nodes') == WordsOf(nodes)
  {
    var nodes' := nodes[k := nodes[k].(children := nodes[k].children[c := |nodes|])] + [EmptyNode];
    var paths' := paths + [paths[k] + [c]];
    AddChildFinds(nodes, paths, k, c);
    AddChildEdges(nodes, paths, k, c);
    AddChildWords(nodes, k, c);
  }

  lemma AddChildFinds(nodes: seq<TrieNode>, paths: seq<string>, k: nat, c: char)
    requires Wf(nodes, paths) && k < |nodes| && c !in nodes[k].children
    ensures var nodes' := nodes[k := nodes[k].(children := nodes[k].children[c := |nodes|])] + [EmptyNode];
      var paths' := paths + [paths[k] + [c]];
      forall i :: 0 <= i < |nodes'| ==> Find(nodes', paths'[i]) == Some(i)
  {
    var n := |nodes|;
    var nodes' := nodes[k := nodes[k].(children := nodes[k].children[c := n])] + [EmptyNode];
    var paths' := paths + [paths[k] + [c]];
    forall i | 0 <= i < |nodes'| ensures Find(nodes', paths'[i]) == Some(i) {
      if i < n {
        FindExtend(nodes, k, c, paths[i]);
      } else {
        FindExtend(nodes, k, c, paths[k]);
        var s := paths[k] + [c];
        assert s[..|s| - 1] == paths[k];
      }
    }
  }

  lemma AddChildEdges(nodes: seq<TrieNode>, paths: seq<string>, k: nat, c: char)
    requires Wf(nodes, paths) && k < |nodes| && c !in nodes[k].children
    ensures var nodes' := nodes[k := nodes[k].(children := nodes[k].children[c := |nodes|])] + [EmptyNode];
      var paths' := paths + [paths[k] + [c]];
      forall i, d :: 0 <= i < |nodes'| && d in nodes'[i].children ==>
        i < nodes'[i].children[d] < |nodes'| && paths'[nodes'[i].children[d]] == paths'[i] + [d]
  {
    var n := |nodes|;
    var nodes' := nodes[k := nodes[k].(children := nodes[k].children[c := n])] + [EmptyNode];
    var paths' := paths + [paths[k] + [c]];
    forall i, d | 0 <= i < |nodes'| && d in nodes'[i].children
      ensures i < nodes'[i].children[d] < |nodes'| && paths'[nodes'[i].children[d]] == paths'[i] + [d]
    {
      if i != k || d != c {
        assert i < n && d in nodes[i].children && nodes'[i].children[d] == nodes[i].children[d];
      }
    }
  }

  lemma AddChildWords(nodes: seq<TrieNode>, k: nat, c: char)
    requires k < |nodes|
    ensures WordsOf(nodes[k := nodes[k].(children := nodes[k].children[c := |nodes|])] + [EmptyNode]) == WordsOf(nodes)
  {
    var nodes' := nodes[k := nodes[k].(children := nodes[k].children[c := |nodes|])] + [EmptyNode];
    forall y | y in WordsOf(nodes') ensures y in WordsOf(nodes) {
      var j :| 0 <= j < |nodes'| && nodes'[j].isEndOfWord && nodes'[j].word == y;
      assert nodes[j].isEndOfWord && nodes[j].word == y;
    }
    forall y | y in WordsOf(nodes) ensures y in WordsOf(nodes') {
      var j :| 0 <= j < |nodes| && nodes[j].isEndOfWord && nodes[j].word == y;
      assert nodes'[j].isEndOfWord && nodes'[j].word == y;
    }
  }

  /** The arena after marking node `k` and storing its path in it: still well formed, one more word. */
  lemma MarkWord(nodes: seq<TrieNode>, paths: seq<string>, k: nat)
    requires Wf(nodes, paths) && k < |nodes|
    ensures var nodes' := nodes[k := nodes[k].(isEndOfWord := true, word := paths[k])];
      && Wf(nodes', paths)
      && WordsOf(nodes') == WordsOf(nodes) + {paths[k]}
  {
    var nodes' := nodes[k := nodes[k].(isEndOfWord := true, word := paths[k])];
    forall i | 0 <= i < |nodes'| ensures Find(nodes', paths[i]) == Some(i) {
      FindIgnoresMarks(nodes, k, paths[k], paths[i]);
    }
    forall i, d | 0 <= i < |nodes'| && d in nodes'[i].children
      ensures i < nodes'[i].children[d] < |nodes'| && paths[nodes'[i].children[d]] == paths[i] + [d]
    {
      assert d in nodes[i].children;
    }
    forall y | y in WordsOf(nodes') ensures y in WordsOf(nodes) + {paths[k]} {
      var j :| 0 <= j < |nodes'| && nodes'[j].isEndOfWord && nodes'[j].word == y;
      if j != k { assert nodes[j].isEndOfWord && nodes[j].word == y; }
    }
    forall y | y in WordsOf(nodes) + {paths[k]} ensures y in WordsOf(nodes') {
      if y == paths[k] {
        assert nodes'[k].isEndOfWord && nodes'[k].word == y;
      } else {
        var j :| 0 <= j < |nodes| && nodes[j].isEndOfWord && nodes[j].word == y;
        assert j != k && nodes'[j].isEndOfWord && nodes'[j].word == y;
      }
    }
  }

  /** The words below the child along `c` are those below its parent whose next character is `c`. */
  lemma ChildPrefix(p: string, c: char)
    ensures forall w :: p + [c] <= w <==> p <= w && |w| > |p| && w[|p|] == c
  {
    forall w ensures p + [c] <= w <==> p <= w && |w| > |p| && w[|p|] == c {
      if p <= w && |w| > |p| && w[|p|] == c {
        assert w[..|p| + 1] == p + [c];
      }
    }
  }

  /** Once every child has been walked, the words collected are all the words below `p`. */
  lemma AllChildrenDone(words: set<string>, p: string, keys: set<char>, part: seq<string>)
    requires forall w :: w in part <==> w in words && p <= w && (w == p || (|w| > |p| && w[|p|] in keys))
    requires forall w :: w in words && p <= w && |w| > |p| ==> w[|p|] in keys
    ensures forall w :: w in part <==> w in words && p <= w
  {
    forall w | w in words && p <= w ensures w in part {
      if w != p {
        assert |w| > |p|;
      }
    }
  }

  /**
   * The words collected below the children in `done`, followed by those below
   * the child along a further character `c`, are the words below the children
   * in `done + {c}`, still each once.
   */
  lemma CollectChild(words: set<string>, p: string, c: char, done: set<char>, a: seq<string>, b: seq<string>)
    requires c !in done
    requires forall w :: w in a <==> w in words && p <= w && (w == p || (|w| > |p| && w[|p|] in done))
    requires forall w :: w in b <==> w in words && p + [c] <= w
    requires NoDuplicates(a) && NoDuplicates(b)
    ensures forall w :: w in a + b <==> w in words && p <= w && (w == p || (|w| > |p| && w[|p|] in done + {c}))
    ensures NoDuplicates(a + b)
  {
    ChildPrefix(p, c);
    NoDuplicatesConcat(a, b);
  }

  // ---------------------------------------------------------------------------
  // The trie object

  class Trie {
    var nodes: seq<TrieNode>
    ghost var paths: seq<string>

    ghost predicate Valid()
      reads this
    {
      Wf(nodes, paths)
    }

    /** The inserted words. */
    ghost function Words(): set<string>
      reads this
    {
      WordsOf(nodes)
    }

    /** The inserted words that start with `p`. */
    ghost function WithPrefix(p: string): set<string>
      reads this
    {
      set w | w in Words() && p <= w
    }

    /** `Trie::Trie()`: a root and nothing else. */
    constructor ()
      ensures Valid() && Words() == {}
    {
      nodes := [EmptyNode];
      paths := [[]];
    }

    /**
     * `Trie::insert`: walk down from the root creating each missing child, then
     * mark the last node and store the word in it.
     */
    method Insert(word: string)
      requires Valid()
      modifies this
      ensures Valid()
      ensures Words() == old(Words()) + {word}
    {
      var current: nat := 0;
      for i := 0 to |word|
        invariant Valid()
        invariant current < |nodes| && paths[current] == word[..i]
        invariant Words() == old(Words())
      {
        var c := word[i];
        if c !in nodes[current].children {
          AddChild(nodes, paths, current, c);
          paths := paths + [paths[current] + [c]];
          nodes := nodes[current := nodes[current].(children := nodes[current].children[c := |nodes|])] + [EmptyNode];
        }
        current := nodes[current].children[c];
        assert word[..i + 1] == word[..i] + [c];
      }
      assert word[..|word|] == word;
      MarkWord(nodes, paths, current);
      nodes := nodes[current := nodes[current].(isEndOfWord := true, word := word)];
    }

    /** `Trie::search`: true exactly for an inserted word, not for a mere prefix of one. */
    method Search(word: string) returns (found: bool)
      requires Valid()
      ensures found <==> word in Words()
    {
      var current := 0;
      for i := 0 to |word|
        invariant current < |nodes| && Find(nodes, word[..i]) == Some(current)
      {
        if word[i] !in nodes[current].children {
          assert word[..i + 1][..i] == word[..i];
          MissingPathNoWords(nodes, paths, word, i + 1);
          return false;
        }
        current := nodes[current].children[word[i]];
        assert word[..i + 1][..i] == word[..i];
      }
      assert word[..|word|] == word;
      InWordsIff(nodes, paths, word, current);
      found := nodes[current].isEndOfWord;
    }

    /**
     * `Trie::autocomplete`: every inserted word that starts with `prefix`, each
     * once, in the (unspecified) order of the child maps.
     */
    method Autocomplete(prefix: string) returns (suggestions: seq<string>)
      requires Valid()
      ensures forall w :: w in suggestions <==> w in Words() && prefix <= w
      ensures NoDuplicates(suggestions)
    {
      suggestions := [];
      var current := 0;
      for i := 0 to |prefix|
        invariant current < |nodes| && Find(nodes, prefix[..i]) == Some(current)
      {
        if prefix[i] !in nodes[current].children {
          assert prefix[..i + 1][..i] == prefix[..i];
          MissingPathNoWords(nodes, paths, prefix, i + 1);
          return;
        }
        current := nodes[current].children[prefix[i]];
        assert prefix[..i + 1][..i] == prefix[..i];
      }
      assert prefix[..|prefix|] == prefix;
      FindGivesPath(nodes, paths, prefix);
      suggestions := FindAllWords(current, suggestions);
    }

    /**
     * `Trie::findAllWords`: appends to `suggestions` the word of `node` if it
     * is marked, then the words below each child in turn.
     */
    method FindAllWords(node: nat, suggestions: seq<string>) returns (out: seq<string>)
      requires Valid() && node < |nodes|
      ensures |suggestions| <= |out| && out[..|suggestions|] == suggestions
      ensures forall w :: w in out[|suggestions|..] <==> w in WithPrefix(paths[node])
      ensures NoDuplicates(out[|suggestions|..])
      decreases |nodes| - node
    {
      var p := paths[node];
      out := suggestions;
      if nodes[node].isEndOfWord {
        out := out + [nodes[node].word];
      }
      InWordsIff(nodes, paths, p, node);
      WordsLeaveThroughEdges(nodes, paths, node);
      var remaining := nodes[node].children.Keys;
      ghost var done: set<char> := {};
      ghost var words := Words();
      while remaining != {}
        invariant remaining + done == nodes[node].children.Keys && remaining !! done
        invariant |suggestions| <= |out| && out[..|suggestions|] == suggestions
        invariant forall w :: w in out[|suggestions|..] <==>
          w in words && p <= w && (w == p || (|w| > |p| && w[|p|] in done))
        invariant NoDuplicates(out[|suggestions|..])
        decreases remaining
      {
        var c :| c in remaining;
        var child := nodes[node].children[c];
        ghost var before := out;
        out := FindAllWords(child, out);
        ghost var added := out[|before|..];
        ExtendPrefix(suggestions, before, out);
        CollectChild(words, p, c, done, before[|suggestions|..], added);
        remaining := remaining - {c};
        done := done + {c};
      }
      AllChildrenDone(words, p, done, out[|suggestions|..]);
    }

    /** `Trie::clear`: a fresh empty root; no word is left. */
    method Clear()
      modifies this
      ensures Valid() && Words() == {}
    {
      nodes := [EmptyNode];
      paths := [[]];
    }
  }

  /** After `clear()`, no word is found and no prefix completes to anything. */
  lemma ClearedTrieIsEmpty(t: Trie, w: string)
    requires t.Valid() && t.Words() == {}
    ensures w !in t.Words() && t.WithPrefix(w) == {}
  {
  }
}
