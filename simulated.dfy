/**
 * The self-contained engine of server.cpp (`SimulatedSearchEngine`). It keeps
 * its own maps instead of the trie, index and graph classes, and its upload
 * builds a co-occurrence graph of its own: every kept word is paired with the
 * (at most four) kept words after it, and each pair raises the weight in both
 * endpoints' lists.
 */
module Simulated {
  import opened Sorting
  import opened Text
  import opened Utils
  import opened KeywordIndex
  import opened TopicGraph
  import opened Engine

  // ---------------------------------------------------------------------------
  // Words kept by an upload

  /** The words of an upload with punctuation erased, those longer than two characters, in order. */
  function KeptWords(ws: seq<string>): seq<string> {
    if ws == [] then []
    else
      var w := RemovePunct(ws[|ws| - 1]);
      KeptWords(ws[..|ws| - 1]) + (if |w| > 2 then [w] else [])
  }

  lemma KeptWordsStep(ws: seq<string>, k: nat)
    requires k < |ws|
    ensures KeptWords(ws[..k + 1]) == KeptWords(ws[..k]) + (if |RemovePunct(ws[k])| > 2 then [RemovePunct(ws[k])] else [])
  {
    assert ws[..k + 1][..k] == ws[..k];
  }

  /** Every kept word is longer than two characters and holds no punctuation; each comes from one of the words read. */
  lemma {:induction false} KeptWordsShape(ws: seq<string>)
    ensures forall i :: 0 <= i < |KeptWords(ws)| ==> |KeptWords(ws)[i]| > 2 && NoPunct(KeptWords(ws)[i])
    ensures forall w :: w in KeptWords(ws) ==> exists i :: 0 <= i < |ws| && RemovePunct(ws[i]) == w
  {
    if ws != [] {
      var init := ws[..|ws| - 1];
      KeptWordsShape(init);
      var w := RemovePunct(ws[|ws| - 1]);
      var r := KeptWords(ws);
      forall i | 0 <= i < |r| ensures |r[i]| > 2 && NoPunct(r[i]) {
        if i < |KeptWords(init)| {
          assert r[i] == KeptWords(init)[i];
        }
      }
      forall v | v in r ensures exists i :: 0 <= i < |ws| && RemovePunct(ws[i]) == v {
        if v in KeptWords(init) {
          var i :| 0 <= i < |init| && RemovePunct(init[i]) == v;
          assert RemovePunct(ws[i]) == v;
        } else {
          assert RemovePunct(ws[|ws| - 1]) == v;
        }
      }
    }
  }

  /** No character of `s` is punctuation. */
  predicate NoPunct(s: string) {
    forall i :: 0 <= i < |s| ==> !IsPunct(s[i])
  }

  // ---------------------------------------------------------------------------
  // The co-occurrence graph

  /** One direction of a co-occurrence: `w1`'s first edge to `w2` is raised, or `(w2, 1)` is appended to `w1`'s list. */
  function Toward(g: Adjacency, w1: string, w2: string): Adjacency {
    var es := Edges(g, w1);
    g[w1 := if w2 in Dests(es) then Raise(es, w2) else es + [Edge(w2, 1)]]
  }

  /** One co-occurrence of `w1` and `w2`: `w1`'s list toward `w2`, then `w2`'s list toward `w1`. */
  function BumpPair(g: Adjacency, w1: string, w2: string): Adjacency {
    Toward(Toward(g, w1, w2), w2, w1)
  }

  /** The co-occurrences `ps`, in order. */
  function BumpAll(g: Adjacency, ps: seq<(string, string)>): Adjacency {
    if ps == [] then g else BumpPair(BumpAll(g, ps[..|ps| - 1]), ps[|ps| - 1].0, ps[|ps| - 1].1)
  }

  /** `min(i + 5, n)`: the end of the window of words paired with word `i`. */
  function WindowEnd(i: nat, n: nat): nat {
    if i + 5 < n then i + 5 else n
  }

  /** The pairs of word `i` with the words from `i + 1` up to `m`, in order. */
  function WindowPairs(ws: seq<string>, i: nat, m: nat): seq<(string, string)>
    requires i < |ws| && m <= |ws|
  {
    if m <= i + 1 then [] else WindowPairs(ws, i, m - 1) + [(ws[i], ws[m - 1])]
  }

  /** The pairs the upload's nested loop visits for the first `n` words, in order. */
  function CoPairs(ws: seq<string>, n: nat): seq<(string, string)>
    requires n <= |ws|
  {
    if n == 0 then [] else CoPairs(ws, n - 1) + WindowPairs(ws, n - 1, WindowEnd(n - 1, |ws|))
  }

  /** A co-occurrence in one direction raises exactly the weight `w1` records for `w2`. */
  lemma TowardWeight(g: Adjacency, w1: string, w2: string, x: string, y: string)
    ensures W(Toward(g, w1, w2), x, y) == W(g, x, y) + (if x == w1 && y == w2 then 1 else 0)
  {
    var es := Edges(g, w1);
    if x == w1 {
      if w2 in Dests(es) {
        WeightToRaise(es, w2, y);
      } else {
        WeightToAppend(es, Edge(w2, 1), y);
        if y !in Dests(es) {
          NotInDestsWeight(es, y);
        }
      }
    }
  }

  /** A co-occurrence raises each endpoint's weight for the other by one; a word paired with itself gains two. */
  lemma BumpPairWeight(g: Adjacency, w1: string, w2: string, x: string, y: string)
    ensures W(BumpPair(g, w1, w2), x, y) ==
      W(g, x, y) + (if x == w1 && y == w2 then 1 else 0) + (if x == w2 && y == w1 then 1 else 0)
  {
    TowardWeight(g, w1, w2, x, y);
    TowardWeight(Toward(g, w1, w2), w2, w1, x, y);
  }

  /**
   * After the co-occurrences `ps`, the weight `x` records for `y` has grown by
   * the number of pairs `(x, y)` plus the number of pairs `(y, x)`.
   */
  lemma {:induction false} BumpAllWeight(g: Adjacency, ps: seq<(string, string)>, x: string, y: string)
    ensures W(BumpAll(g, ps), x, y) == W(g, x, y) + multiset(ps)[(x, y)] + multiset(ps)[(y, x)]
  {
    if ps != [] {
      var init, p := ps[..|ps| - 1], ps[|ps| - 1];
      assert ps == init + [p];
      BumpAllWeight(g, init, x, y);
      BumpPairWeight(BumpAll(g, init), p.0, p.1, x, y);
    }
  }

  /** Both endpoints of every co-occurrence are topics afterwards; no topic is lost and no other is added. */
  lemma {:induction false} BumpAllKeys(g: Adjacency, ps: seq<(string, string)>)
    ensures BumpAll(g, ps).Keys == g.Keys + Ends(ps)
  {
    if ps != [] {
      var n := |ps| - 1;
      BumpAllKeys(g, ps[..n]);
      BumpPairKeys(BumpAll(g, ps[..n]), ps[n].0, ps[n].1);
    }
  }

  /** The words occurring in the pairs `ps`. */
  function Ends(ps: seq<(string, string)>): set<string> {
    if ps == [] then {} else Ends(ps[..|ps| - 1]) + {ps[|ps| - 1].0, ps[|ps| - 1].1}
  }

  lemma {:induction false} EndsMembers(ps: seq<(string, string)>, t: string)
    ensures t in Ends(ps) <==> exists k :: 0 <= k < |ps| && (t == ps[k].0 || t == ps[k].1)
  {
    if ps != [] {
      var n := |ps| - 1;
      EndsMembers(ps[..n], t);
      if t in Ends(ps) {
        if t in Ends(ps[..n]) {
          var k :| 0 <= k < n && (t == ps[..n][k].0 || t == ps[..n][k].1);
          assert ps[k] == ps[..n][k];
        } else {
          assert t == ps[n].0 || t == ps[n].1;
        }
      } else {
        forall k | 0 <= k < |ps| ensures t != ps[k].0 && t != ps[k].1 {
          if k < n {
            assert ps[k] == ps[..n][k];
          }
        }
      }
    }
  }

  lemma BumpPairKeys(g: Adjacency, a: string, b: string)
    ensures BumpPair(g, a, b).Keys == g.Keys + {a, b}
  {
    assert Toward(g, a, b).Keys == g.Keys + {a};
  }

  /** Weights that are symmetric stay symmetric: every co-occurrence raises both directions alike. */
  ghost predicate SymmetricWeights(g: Adjacency) {
    forall x, y :: W(g, x, y) == W(g, y, x)
  }

  lemma BumpAllSymmetric(g: Adjacency, ps: seq<(string, string)>)
    requires SymmetricWeights(g)
    ensures SymmetricWeights(BumpAll(g, ps))
  {
    forall x, y ensures W(BumpAll(g, ps), x, y) == W(BumpAll(g, ps), y, x) {
      BumpAllWeight(g, ps, x, y);
      BumpAllWeight(g, ps, y, x);
    }
  }

  lemma BumpAllSnoc(g: Adjacency, ps: seq<(string, string)>, p: (string, string))
    ensures BumpAll(g, ps + [p]) == BumpPair(BumpAll(g, ps), p.0, p.1)
  {
    assert (ps + [p])[..|ps|] == ps;
  }

  // ---------------------------------------------------------------------------
  // Which words are paired

  /** The window of word `i` pairs it with exactly the words after it and below `m`. */
  lemma {:induction false} WindowPairsMembers(ws: seq<string>, i: nat, m: nat, a: string, b: string)
    requires i < |ws| && m <= |ws|
    ensures (a, b) in WindowPairs(ws, i, m) <==> a == ws[i] && exists j :: i < j < m && ws[j] == b
  {
    if m > i + 1 {
      WindowPairsMembers(ws, i, m - 1, a, b);
      if (a, b) in WindowPairs(ws, i, m) && (a, b) !in WindowPairs(ws, i, m - 1) {
        assert i < m - 1 < m && ws[m - 1] == b;
      }
      if a == ws[i] && exists j :: i < j < m && ws[j] == b {
        var j :| i < j < m && ws[j] == b;
        if j == m - 1 {
          assert WindowPairs(ws, i, m)[|WindowPairs(ws, i, m - 1)|] == (a, b);
        }
      }
    }
  }

  /** Within reach: `j` follows `i` by one to four positions. */
  predicate Near(i: int, j: int) {
    i < j < i + 5
  }

  /** The upload pairs word `a` with word `b` exactly when `b` occurs one to four positions after `a`. */
  lemma {:induction false} CoPairsMembers(ws: seq<string>, n: nat, a: string, b: string)
    requires n <= |ws|
    ensures (a, b) in CoPairs(ws, n) <==>
      exists i, j :: 0 <= i < n && Near(i, j) && j < |ws| && ws[i] == a && ws[j] == b
  {
    if n > 0 {
      var i := n - 1;
      CoPairsMembers(ws, i, a, b);
      WindowPairsMembers(ws, i, WindowEnd(i, |ws|), a, b);
      if (a, b) in CoPairs(ws, n) && (a, b) !in CoPairs(ws, i) {
        var j :| i < j < WindowEnd(i, |ws|) && ws[j] == b;
        assert 0 <= i < n && Near(i, j) && j < |ws| && ws[i] == a && ws[j] == b;
      }
      if exists i', j :: 0 <= i' < n && Near(i', j) && j < |ws| && ws[i'] == a && ws[j] == b {
        var i', j :| 0 <= i' < n && Near(i', j) && j < |ws| && ws[i'] == a && ws[j] == b;
        if i' == i {
          assert (a, b) in WindowPairs(ws, i, WindowEnd(i, |ws|));
        } else {
          assert (a, b) in CoPairs(ws, i);
        }
      }
    }
  }

  // ---------------------------------------------------------------------------
  // Search results

  /** The sort key of this engine's results: the count in the pair. */
  function Count(p: (string, int)): int {
    p.1
  }

  /** The sort key of related topics: the edge weight. */
  function EdgeWeight(e: Edge): int {
    e.weight
  }

  /** `{fi.filename, fi.frequency}` for every posting, in order. */
  function AsPairs(ps: seq<FileInfo>): (r: seq<(string, int)>)
    ensures |r| == |ps|
    ensures forall i :: 0 <= i < |ps| ==> r[i] == (ps[i].filename, ps[i].frequency)
  {
    seq(|ps|, i requires 0 <= i < |ps| => (ps[i].filename, ps[i].frequency))
  }

  // ---------------------------------------------------------------------------
  // The learning path

  /**
   * `(size_t) n`: an `int` compared with a `size_t` is converted to the
   * unsigned 64-bit type, so a negative bound becomes a huge one.
   */
  function SizeT(n: int): nat {
    n % 0x1_0000_0000_0000_0000
  }

  /**
   * The running best `(topic, weight)` after scanning `es`: an edge replaces it
   * when its destination is unvisited and its weight strictly greater, so the
   * first of several equal weights wins.
   */
  function ScanEdges(es: seq<Edge>, visited: set<string>, best: (string, int)): (string, int) {
    if es == [] then best
    else
      var e := es[0];
      ScanEdges(es[1..], visited, if e.destination !in visited && e.weight > best.1 then (e.destination, e.weight) else best)
  }

  /** The same scan over the lists of the topics `ts` that are vertices, in order. */
  function ScanTopics(g: Adjacency, ts: seq<string>, visited: set<string>, best: (string, int)): (string, int) {
    if ts == [] then best
    else ScanTopics(g, ts[1..], visited, if ts[0] in g then ScanEdges(g[ts[0]], visited, best) else best)
  }

  /** What one round of `getLearningPath` finds after `path`: the next topic (empty for none) and its edge weight. */
  function NextStep(g: Adjacency, path: seq<string>): (string, int) {
    ScanTopics(g, path, set t | t in path, ("", -1))
  }

  /**
   * The scan keeps `best` or moves to an unvisited edge of `es` with a greater
   * weight, and ends at least as heavy as every unvisited edge of `es`. When it
   * moves, it ends on an edge that every unvisited edge before it is strictly
   * lighter than: of several heaviest edges, the first wins.
   */
  lemma {:induction false} ScanEdgesFacts(es: seq<Edge>, visited: set<string>, best: (string, int))
    ensures var r := ScanEdges(es, visited, best);
      && r.1 >= best.1
      && (r == best || (r.0 !in visited && r.1 > best.1 && Edge(r.0, r.1) in es))
      && (forall e :: e in es && e.destination !in visited ==> e.weight <= r.1)
      && (r != best ==> exists i :: 0 <= i < |es| && es[i] == Edge(r.0, r.1) && LighterBefore(es, i, visited, r.1))
  {
    if es != [] {
      var e := es[0];
      var b := if e.destination !in visited && e.weight > best.1 then (e.destination, e.weight) else best;
      ScanEdgesFacts(es[1..], visited, b);
      assert es == [e] + es[1..];
      var r := ScanEdges(es, visited, best);
      if r != b {
        var i :| 0 <= i < |es[1..]| && es[1..][i] == Edge(r.0, r.1) && LighterBefore(es[1..], i, visited, r.1);
        assert es[i + 1] == Edge(r.0, r.1);
        assert LighterBefore(es, i + 1, visited, r.1) by {
          forall k | 0 <= k < i + 1 && es[k].destination !in visited ensures es[k].weight < r.1 {
            if k > 0 {
              assert es[k] == es[1..][k - 1];
            }
          }
        }
      } else if r != best {
        assert es[0] == Edge(r.0, r.1) && LighterBefore(es, 0, visited, r.1);
      }
    }
  }

  /** Every unvisited edge before position `i` is strictly lighter than `w`. */
  predicate LighterBefore(es: seq<Edge>, i: nat, visited: set<string>, w: int)
    requires i <= |es|
  {
    forall k :: 0 <= k < i && es[k].destination !in visited ==> es[k].weight < w
  }

  /**
   * The same facts for a scan over several topics' lists. When the scan moves,
   * it ends on edge `i` of the list of topic `ts[p]`; every unvisited edge of an
   * earlier topic's list, and every one before `i` in that list, is strictly
   * lighter: ties go to the earlier topic, then to the earlier edge.
   */
  lemma {:induction false} ScanTopicsFacts(g: Adjacency, ts: seq<string>, visited: set<string>, best: (string, int))
    ensures var r := ScanTopics(g, ts, visited, best);
      && r.1 >= best.1
      && (r == best || (r.0 !in visited && r.1 > best.1 && exists t :: t in ts && t in g && Edge(r.0, r.1) in g[t]))
      && (forall t, e :: t in ts && t in g && e in g[t] && e.destination !in visited ==> e.weight <= r.1)
      && (r != best ==> exists p, i :: FirstHeaviestAt(g, ts, visited, p, i, r))
  {
    if ts != [] {
      var b := if ts[0] in g then ScanEdges(g[ts[0]], visited, best) else best;
      if ts[0] in g {
        ScanEdgesFacts(g[ts[0]], visited, best);
      }
      ScanTopicsFacts(g, ts[1..], visited, b);
      assert ts == [ts[0]] + ts[1..];
      var r := ScanTopics(g, ts, visited, best);
      if r != best && r == b {
        assert ts[0] in ts;
        var i :| 0 <= i < |g[ts[0]]| && g[ts[0]][i] == Edge(r.0, r.1) && LighterBefore(g[ts[0]], i, visited, r.1);
        assert FirstHeaviestAt(g, ts, visited, 0, i, r);
      } else if r != best {
        var t :| t in ts[1..] && t in g && Edge(r.0, r.1) in g[t];
        assert t in ts;
        var p, i :| FirstHeaviestAt(g, ts[1..], visited, p, i, r);
        ShiftFirstHeaviest(g, ts, visited, b, p, i, r);
      }
    }
  }

  /**
   * `r` is edge `i` of the list of `ts[p]`, and every unvisited edge listed
   * before it (in an earlier topic's list, or earlier in the same list) is
   * strictly lighter.
   */
  predicate FirstHeaviestAt(g: Adjacency, ts: seq<string>, visited: set<string>, p: int, i: int, r: (string, int)) {
    && 0 <= p < |ts| && ts[p] in g && 0 <= i < |g[ts[p]]| && g[ts[p]][i] == Edge(r.0, r.1)
    && (forall q, e :: 0 <= q < p && ts[q] in g && e in g[ts[q]] && e.destination !in visited ==> e.weight < r.1)
    && LighterBefore(g[ts[p]], i, visited, r.1)
  }

  /** A first-heaviest position after the first topic is one in the whole list when the first topic's edges are all lighter. */
  lemma ShiftFirstHeaviest(g: Adjacency, ts: seq<string>, visited: set<string>, b: (string, int), p: int, i: int, r: (string, int))
    requires ts != [] && FirstHeaviestAt(g, ts[1..], visited, p, i, r) && r.1 > b.1
    requires ts[0] in g ==> forall e :: e in g[ts[0]] && e.destination !in visited ==> e.weight <= b.1
    ensures FirstHeaviestAt(g, ts, visited, p + 1, i, r)
  {
    forall q, e | 0 <= q < p + 1 && ts[q] in g && e in g[ts[q]] && e.destination !in visited ensures e.weight < r.1 {
      if q > 0 {
        assert ts[q] == ts[1..][q - 1];
      }
    }
  }

  /**
   * The topic one round of `getLearningPath` appends is not yet on the path,
   * is reached by an edge from a topic on it, and that edge is at least as
   * heavy as every edge from the path to a topic off it; when it finds
   * nothing, no such edge has a weight of 0 or more. Of several heaviest
   * edges, the one listed first wins, scanning the path in order.
   */
  lemma NextStepFacts(g: Adjacency, path: seq<string>)
    ensures var r := NextStep(g, path);
      && (r == ("", -1) || (r.0 !in path && r.1 >= 0 && exists t :: t in path && t in g && Edge(r.0, r.1) in g[t]))
      && (forall t, e :: t in path && t in g && e in g[t] && e.destination !in path ==> e.weight <= r.1)
      && (r != ("", -1) ==> exists p, i :: FirstHeaviestAt(g, path, OnPath(path), p, i, r))
  {
    ScanTopicsFacts(g, path, OnPath(path), ("", -1));
  }

  /** The topics on the path: those `getLearningPath` has visited. */
  function OnPath(path: seq<string>): set<string> {
    set t | t in path
  }

  // ---------------------------------------------------------------------------
  // Snippets

  const KeywordNotInContext: string := "Keyword not found in context"

  /** Every word lower-cased: what this engine's snippet search compares with the keyword. */
  function Lowered(ws: seq<string>): (r: seq<string>)
    ensures |r| == |ws|
    ensures forall i :: 0 <= i < |ws| ==> r[i] == ToLowerCase(ws[i])
  {
    seq(|ws|, i requires 0 <= i < |ws| => ToLowerCase(ws[i]))
  }

  /**
   * What `getSnippet` returns for stored text: the words around the first one
   * containing the keyword (both lower-cased, punctuation kept), each followed
   * by a space, then "..." and quotes; no cut at 200 characters.
   */
  function SimSnippet(content: string, keyword: string, contextWords: int): string {
    var ws := Words(content);
    var p := FirstContaining(Lowered(ws), ToLowerCase(keyword), 0);
    if p < 0 then KeywordNotInContext else "\"" + Spaced(Window(ws, p, contextWords)) + "...\""
  }

  /**
   * The snippet reports the keyword missing exactly when no lower-cased word
   * contains the lower-cased keyword; otherwise it is quoted and ends in "...".
   */
  lemma SimSnippetCases(content: string, keyword: string, contextWords: int)
    ensures SimSnippet(content, keyword, contextWords) == KeywordNotInContext ==>
      forall j :: 0 <= j < |Words(content)| ==> !Contains(ToLowerCase(Words(content)[j]), ToLowerCase(keyword))
    ensures (forall j :: 0 <= j < |Words(content)| ==> !Contains(ToLowerCase(Words(content)[j]), ToLowerCase(keyword))) ==>
      SimSnippet(content, keyword, contextWords) == KeywordNotInContext
    ensures SimSnippet(content, keyword, contextWords) != KeywordNotInContext ==>
      var r := SimSnippet(content, keyword, contextWords);
      |r| >= 5 && r[0] == '"' && r[|r| - 4..] == "...\""
  {
    var ws := Words(content);
    var p := FirstContaining(Lowered(ws), ToLowerCase(keyword), 0);
    var r := SimSnippet(content, keyword, contextWords);
    if p >= 0 {
      var body := Spaced(Window(ws, p, contextWords));
      assert r == "\"" + body + "...\"";
      assert r[0] == '"' && KeywordNotInContext[0] == 'K';
      assert r[|r| - 4..] == "...\"";
      assert p < |ws| && Lowered(ws)[p] == ToLowerCase(ws[p]);
      assert Contains(ToLowerCase(ws[p]), ToLowerCase(keyword));
    } else {
      forall j | 0 <= j < |ws| ensures !Contains(ToLowerCase(ws[j]), ToLowerCase(keyword)) {
        assert Lowered(ws)[j] == ToLowerCase(ws[j]);
      }
    }
  }

  /** The search loop of `getSnippet`: the first word whose lower-cased form contains the keyword. */
  method FindLowered(words: seq<string>, lowerKeyword: string) returns (keywordPos: int)
    ensures keywordPos == FirstContaining(Lowered(words), lowerKeyword, 0)
  {
    ghost var forms := Lowered(words);
    keywordPos := -1;
    for i := 0 to |words|
      invariant FirstContaining(forms, lowerKeyword, 0) == FirstContaining(forms, lowerKeyword, i)
    {
      var lowerWord := ToLowerCase(words[i]);
      if Contains(lowerWord, lowerKeyword) {
        keywordPos := i;
        return;
      }
    }
  }

  // ---------------------------------------------------------------------------
  // The engine

  class SimulatedSearchEngine {
    var keywordIndex: Index
    var fileContents: map<string, string>
    var topicGraph: Adjacency
    var uploadedFiles: seq<string>

    /** Postings as `addKeyword` builds them, and co-occurrence weights that are the same in both directions. */
    ghost predicate Valid()
      reads this
    {
      ValidIndex(keywordIndex) && SymmetricWeights(topicGraph)
    }

    constructor ()
      ensures Valid()
      ensures keywordIndex == map[] && fileContents == map[] && topicGraph == map[] && uploadedFiles == []
    {
      keywordIndex, fileContents, topicGraph, uploadedFiles := map[], map[], map[], [];
    }

    /**
     * `uploadFile`: store the text, record the name, index every kept word for
     * the file, then let every kept word co-occur with the next four.
     */
    method UploadFile(filename: string, content: string)
      modifies this
      ensures fileContents == old(fileContents)[filename := content]
      ensures uploadedFiles == old(uploadedFiles) + [filename]
      ensures keywordIndex == AddKeywordsSpec(old(keywordIndex), KeptWords(Words(content)), filename)
      ensures var kw := KeptWords(Words(content)); topicGraph == BumpAll(old(topicGraph), CoPairs(kw, |kw|))
      ensures old(Valid()) ==> Valid()
    {
      fileContents := fileContents[filename := content];
      uploadedFiles := uploadedFiles + [filename];
      var words := IndexWords(Words(content), filename);
      BuildCoOccurrences(words);
      if old(Valid()) {
        AddKeywordsValid(old(keywordIndex), words, filename);
        BumpAllSymmetric(old(topicGraph), CoPairs(words, |words|));
      }
    }

    /** The word loop of `uploadFile`: erase punctuation, keep words longer than two characters and index each for the file. */
    method IndexWords(ws: seq<string>, filename: string) returns (words: seq<string>)
      modifies this
      ensures words == KeptWords(ws)
      ensures keywordIndex == AddKeywordsSpec(old(keywordIndex), words, filename)
      ensures fileContents == old(fileContents) && topicGraph == old(topicGraph) && uploadedFiles == old(uploadedFiles)
    {
      words := [];
      for k := 0 to |ws|
        invariant words == KeptWords(ws[..k])
        invariant keywordIndex == AddKeywordsSpec(old(keywordIndex), words, filename)
        invariant fileContents == old(fileContents) && topicGraph == old(topicGraph) && uploadedFiles == old(uploadedFiles)
      {
        KeptWordsStep(ws, k);
        var word := RemovePunct(ws[k]);
        if |word| > 2 {
          AddKeywordsSnoc(old(keywordIndex), words, word, filename);
          words := words + [word];
          IndexWord(word, filename);
        }
      }
      assert ws[..|ws|] == ws;
    }

    /** The posting scan of `uploadFile`: raise the file's frequency for `word`, or append `(filename, 1)`. */
    method IndexWord(word: string, filename: string)
      modifies this
      ensures keywordIndex == AddKeywordSpec(old(keywordIndex), word, filename)
      ensures fileContents == old(fileContents) && topicGraph == old(topicGraph) && uploadedFiles == old(uploadedFiles)
    {
      var ps := Postings(keywordIndex, word);
      var found := false;
      for i := 0 to |ps|
        invariant !found ==> keywordIndex == old(keywordIndex) && forall j :: 0 <= j < i ==> ps[j].filename != filename
        invariant found ==> keywordIndex == AddKeywordSpec(old(keywordIndex), word, filename)
        invariant fileContents == old(fileContents) && topicGraph == old(topicGraph) && uploadedFiles == old(uploadedFiles)
      {
        if ps[i].filename == filename {
          BumpFirstMatch(ps, filename, i);
          keywordIndex := keywordIndex[word := ps[i := ps[i].(frequency := ps[i].frequency + 1)]];
          found := true;
          break;
        }
      }
      if !found {
        BumpNoMatch(ps, filename);
        keywordIndex := keywordIndex[word := ps + [FileInfo(filename, 1)]];
      }
    }

    /** The pair loops of `uploadFile`: each word with the words one to four places after it. */
    method BuildCoOccurrences(words: seq<string>)
      modifies this
      ensures topicGraph == BumpAll(old(topicGraph), CoPairs(words, |words|))
      ensures fileContents == old(fileContents) && keywordIndex == old(keywordIndex) && uploadedFiles == old(uploadedFiles)
    {
      ghost var g0 := topicGraph;
      for i := 0 to |words|
        invariant topicGraph == BumpAll(g0, CoPairs(words, i))
        invariant fileContents == old(fileContents) && keywordIndex == old(keywordIndex) && uploadedFiles == old(uploadedFiles)
      {
        BumpWindow(words, i, g0, CoPairs(words, i));
      }
    }

    /** The inner loop of `uploadFile`'s co-occurrence pass: word `i` with each of the (at most four) words after it. */
    method BumpWindow(words: seq<string>, i: nat, ghost g0: Adjacency, ghost before: seq<(string, string)>)
      requires i < |words| && topicGraph == BumpAll(g0, before)
      modifies this
      ensures topicGraph == BumpAll(g0, before + WindowPairs(words, i, WindowEnd(i, |words|)))
      ensures fileContents == old(fileContents) && keywordIndex == old(keywordIndex) && uploadedFiles == old(uploadedFiles)
    {
      var end := WindowEnd(i, |words|);
      assert before + WindowPairs(words, i, i + 1) == before;
      for j := i + 1 to end
        invariant topicGraph == BumpAll(g0, before + WindowPairs(words, i, j))
        invariant fileContents == old(fileContents) && keywordIndex == old(keywordIndex) && uploadedFiles == old(uploadedFiles)
      {
        var w1, w2 := words[i], words[j];
        PairWindowStep(g0, before, words, i, j);
        BumpToward(w1, w2);
        BumpToward(w2, w1);
      }
    }

    /** The edge scan of `uploadFile` for one direction: raise `w1`'s first edge to `w2`, or append `(w2, 1)`. */
    method BumpToward(w1: string, w2: string)
      modifies this
      ensures topicGraph == Toward(old(topicGraph), w1, w2)
      ensures fileContents == old(fileContents) && keywordIndex == old(keywordIndex) && uploadedFiles == old(uploadedFiles)
    {
      var es := Edges(topicGraph, w1);
      var edgeExists := false;
      for i := 0 to |es|
        invariant !edgeExists ==> topicGraph == old(topicGraph) && forall j :: 0 <= j < i ==> es[j].destination != w2
        invariant edgeExists ==> topicGraph == Toward(old(topicGraph), w1, w2)
        invariant fileContents == old(fileContents) && keywordIndex == old(keywordIndex) && uploadedFiles == old(uploadedFiles)
      {
        if es[i].destination == w2 {
          InDests(es, i);
          topicGraph := topicGraph[w1 := es[i := es[i].(weight := es[i].weight + 1)]];
          edgeExists := true;
          break;
        }
      }
      if !edgeExists {
        assert w2 !in Dests(es) by {
          forall e | e in es ensures e.destination != w2 {
            var j :| 0 <= j < |es| && es[j] == e;
          }
        }
        topicGraph := topicGraph[w1 := es + [Edge(w2, 1)]];
      }
    }

    /** `search`: the keyword's postings as `(filename, frequency)` pairs, most frequent first; none for an unknown keyword. */
    method Search(keyword: string) returns (results: seq<(string, int)>)
      ensures multiset(results) == multiset(AsPairs(Postings(keywordIndex, keyword)))
      ensures SortedDesc(results, Count)
      ensures keyword !in keywordIndex ==> results == []
    {
      results := [];
      if keyword in keywordIndex {
        var ps := keywordIndex[keyword];
        for i := 0 to |ps|
          invariant results == AsPairs(ps)[..i]
        {
          assert AsPairs(ps)[..i + 1] == AsPairs(ps)[..i] + [AsPairs(ps)[i]];
          results := results + [(ps[i].filename, ps[i].frequency)];
        }
        assert AsPairs(ps)[..|ps|] == AsPairs(ps);
        results := SortDesc(results, Count);
      }
    }

    /**
     * `getRelatedTopics`: the topic's edges, heaviest first, cut to six; the
     * edges left out weigh no more than any kept. The depth is not used.
     */
    method GetRelatedTopics(topic: string, maxDepth: int) returns (related: seq<Edge>)
      ensures topic !in topicGraph ==> related == []
      ensures topic in topicGraph ==> |related| == if |topicGraph[topic]| > 6 then 6 else |topicGraph[topic]|
      ensures SortedDesc(related, EdgeWeight)
      ensures multiset(related) <= multiset(Edges(topicGraph, topic))
      ensures forall x, y :: x in multiset(Edges(topicGraph, topic)) - multiset(related) && y in related ==> x.weight <= y.weight
    {
      related := [];
      if topic in topicGraph {
        var es := topicGraph[topic];
        for i := 0 to |es|
          invariant related == es[..i]
        {
          assert es[..i + 1] == es[..i] + [es[i]];
          related := related + [es[i]];
        }
        assert es[..|es|] == es;
        related := SortDesc(related, EdgeWeight);
        ghost var sorted := related;
        if |related| > 6 {
          related := related[..6];
        }
        KeepHeaviest(es, sorted, related);
      }
    }

    /**
     * `getLearningPath`: from a vertex, repeatedly append the heaviest edge's
     * unvisited destination out of the topics on the path, until the path
     * holds `maxTopics` topics (compared as `size_t`) or no such edge is left.
     */
    method GetLearningPath(startTopic: string, maxTopics: int) returns (path: seq<string>)
      ensures startTopic !in topicGraph ==> path == []
      ensures startTopic in topicGraph ==> |path| >= 1 && path[0] == startTopic
      ensures NoDuplicates(path)
      ensures |path| <= if SizeT(maxTopics) > 1 then SizeT(maxTopics) else 1
      ensures Greedy(topicGraph, path)
      ensures startTopic in topicGraph ==> |path| >= SizeT(maxTopics) || NextStep(topicGraph, path).0 == ""
    {
      if startTopic !in topicGraph {
        return [];
      }
      path := [startTopic];
      var visited := {startTopic};
      var current: seq<(string, int)> := [(startTopic, 0)];
      ghost var names := Names(topicGraph);
      while |path| < SizeT(maxTopics) && |current| > 0
        invariant |path| >= 1 && path[0] == startTopic
        invariant visited == set t | t in path
        invariant Mirrors(current, path)
        invariant NoDuplicates(path) && Greedy(topicGraph, path)
        invariant visited <= names
        invariant |path| <= if SizeT(maxTopics) > 1 then SizeT(maxTopics) else 1
        decreases |names - visited|
      {
        var nextTopic, maxWeight := Scan(current, path, visited);
        if nextTopic == "" {
          break;
        }
        ExtendPath(topicGraph, path, visited, nextTopic, maxWeight);
        Descend(names, visited, visited + {nextTopic}, nextTopic);
        path := path + [nextTopic];
        visited := visited + {nextTopic};
        current := current + [(nextTopic, maxWeight)];
      }
    }

    /** The scan of one round of `getLearningPath`: every edge of every topic in `current`, in order. */
    method Scan(current: seq<(string, int)>, ghost path: seq<string>, visited: set<string>) returns (nextTopic: string, maxWeight: int)
      requires Mirrors(current, path)
      ensures (nextTopic, maxWeight) == ScanTopics(topicGraph, path, visited, ("", -1))
    {
      nextTopic, maxWeight := "", -1;
      for k := 0 to |current|
        invariant ScanTopics(topicGraph, path, visited, ("", -1)) == ScanTopics(topicGraph, path[k..], visited, (nextTopic, maxWeight))
      {
        assert path[k..][1..] == path[k + 1..];
        var topic := current[k].0;
        if topic in topicGraph {
          var es := topicGraph[topic];
          ghost var start := (nextTopic, maxWeight);
          for i := 0 to |es|
            invariant ScanEdges(es, visited, start) == ScanEdges(es[i..], visited, (nextTopic, maxWeight))
          {
            assert es[i..][1..] == es[i + 1..];
            if es[i].destination !in visited && es[i].weight > maxWeight {
              maxWeight := es[i].weight;
              nextTopic := es[i].destination;
            }
          }
        }
      }
    }

    /** `getUploadedFiles`. */
    function GetUploadedFiles(): seq<string>
      reads this
    {
      uploadedFiles
    }

    /**
     * `getSnippet`: a fixed message for a file with no stored text, otherwise
     * the words around the keyword.
     */
    method GetSnippet(filename: string, keyword: string, contextWords: int) returns (snippet: string)
      ensures filename !in fileContents ==> snippet == FileNotAvailable
      ensures filename in fileContents ==> snippet == SimSnippet(fileContents[filename], keyword, contextWords)
    {
      if filename !in fileContents {
        return FileNotAvailable;
      }
      var content := fileContents[filename];
      var words := Words(content);
      var keywordPos := FindLowered(words, ToLowerCase(keyword));
      if keywordPos == -1 {
        return KeywordNotInContext;
      }
      var body := JoinWindow(words, keywordPos, contextWords);
      snippet := "\"" + body + "...\"";
    }
  }

  /** Cutting the sorted edges to six keeps them sorted and keeps the heaviest. */
  lemma KeepHeaviest(es: seq<Edge>, sorted: seq<Edge>, related: seq<Edge>)
    requires multiset(sorted) == multiset(es) && SortedDesc(sorted, EdgeWeight)
    requires related == if |sorted| > 6 then sorted[..6] else sorted
    ensures |related| == if |es| > 6 then 6 else |es|
    ensures SortedDesc(related, EdgeWeight) && multiset(related) <= multiset(es)
    ensures forall x, y :: x in multiset(es) - multiset(related) && y in related ==> x.weight <= y.weight
  {
    assert |sorted| == |multiset(sorted)| == |es|;
    var n := |related|;
    assert related == sorted[..n];
    TruncateKeepsLargest(sorted, EdgeWeight, n);
    forall x, y | x in multiset(es) - multiset(related) && y in related ensures x.weight <= y.weight {
      assert EdgeWeight(x) <= EdgeWeight(y);
    }
  }

  /** The pairs of word `i` with word `j` after those with the words before `j`. */
  lemma PairWindowStep(g0: Adjacency, before: seq<(string, string)>, words: seq<string>, i: nat, j: nat)
    requires i < j < |words|
    ensures BumpAll(g0, before + WindowPairs(words, i, j + 1)) == Toward(Toward(BumpAll(g0, before + WindowPairs(words, i, j)), words[i], words[j]), words[j], words[i])
  {
    assert before + WindowPairs(words, i, j + 1) == before + WindowPairs(words, i, j) + [(words[i], words[j])];
    BumpAllSnoc(g0, before + WindowPairs(words, i, j), (words[i], words[j]));
  }

  /** The topic list `current` of `getLearningPath` holds the path's topics, in order. */
  predicate Mirrors(current: seq<(string, int)>, path: seq<string>) {
    |current| == |path| && forall k :: 0 <= k < |path| ==> current[k].0 == path[k]
  }

  /** Every topic after the first is what the round before it found. */
  predicate Greedy(g: Adjacency, path: seq<string>) {
    forall k :: 1 <= k < |path| ==> path[k] != "" && path[k] == NextStep(g, path[..k]).0
  }

  /** A round that finds a topic extends the path by a new name of the graph and keeps the path greedy. */
  lemma ExtendPath(g: Adjacency, path: seq<string>, visited: set<string>, next: string, w: int)
    requires visited == set t | t in path
    requires NoDuplicates(path) && Greedy(g, path)
    requires next != "" && (next, w) == NextStep(g, path)
    ensures next !in visited && next in Names(g)
    ensures visited + {next} == set t | t in path + [next]
    ensures NoDuplicates(path + [next]) && Greedy(g, path + [next])
    ensures forall current :: Mirrors(current, path) ==> Mirrors(current + [(next, w)], path + [next])
  {
    NextStepFacts(g, path);
    var t :| t in path && t in g && Edge(next, w) in g[t];
    ExtendGreedy(g, path, next);
    ExtendNoDuplicates(path, next);
  }

  lemma ExtendGreedy(g: Adjacency, path: seq<string>, next: string)
    requires Greedy(g, path) && next != "" && next == NextStep(g, path).0
    ensures Greedy(g, path + [next])
  {
    var p := path + [next];
    forall k | 1 <= k < |p| ensures p[k] != "" && p[k] == NextStep(g, p[..k]).0 {
      if k < |path| {
        assert p[..k] == path[..k];
      } else {
        assert p[..k] == path;
      }
    }
  }

  lemma ExtendNoDuplicates<T>(s: seq<T>, x: T)
    requires NoDuplicates(s) && x !in s
    ensures NoDuplicates(s + [x])
  {
    var p := s + [x];
    forall i, j | 0 <= i < j < |p| ensures p[i] != p[j] {
      if j == |s| {
        assert p[i] in s;
      }
    }
  }
}
