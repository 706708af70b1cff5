# Note search engine: a verified model

This project is a Dafny model of the retrieval and topic-graph core of a
note-search tool written in C++. Notes are uploaded as text. Each upload is
split into keywords and indexed, and co-occurring keywords are linked in a
weighted topic graph. The graph answers related-topic, clustering and
learning-path queries. The model covers these parts:

- `trie.cpp`, module `PrefixTrie`, class `Trie`: a prefix trie for insert, exact
  search and autocomplete. The tree is held as an arena of nodes, where a
  child is the index of another node. A ghost sequence records the path that
  leads to each node.
- `hashmap.cpp`, module `KeywordIndex`, class `HashMap`: the inverted index
  from keyword to postings `(filename, frequency)`, and the store of file
  texts. `AddKeywordSpec` states what one `addKeyword` does to the index.
  `AddKeywordsSpec` states the effect of a sequence of them.
- `graph.cpp`, module `TopicGraph`, class `Graph`: adjacency lists of
  weighted edges.
  - `AddEdgeSpec` and `AddTopicSpec` state the effect of `addEdge` and
    `addTopic`.
  - `Apply` runs a sequence of such steps.
  - `ValidGraph` is the shape every such sequence keeps: no self-edges, one
    edge per destination, weights of at least 1, and edge presence the same
    in both directions.
  - The breadth-first related-topics query and the depth-first clustering
    are methods with loops and recursion, as in the source.
- `heap.cpp` and `heap.h`, module `ResultHeap`, class `Heap`: a binary max-heap
  of search results held in a sequence. The comparator is inverted, so the
  root is the most relevant result.
- `main.cpp`, module `Engine`, class `SearchEngine`: upload and search glue
  over a trie, a keyword index and a topic graph. `GraphOps` lists the steps
  an upload takes on the graph.
- `server.cpp`, module `Simulated`, class `SimulatedSearchEngine`: a second,
  self-contained engine.
  - It has its own index and its own windowed co-occurrence graph
    (`BumpAll` over `CoPairs`).
  - It answers direct-neighbour related topics and a greedy learning path
    (`NextStep`, `Greedy`).
- `utils.cpp`, module `Utils`: the tokenizer, the sentence splitter, the
  snippet window and the paragraph splitter. The stop-word list is
  `Utils.StopWords`, and `isStopWord` is membership in it. `isImportantWord`
  is `Utils.IsImportantWord`.
- Module `Text` holds the C++ library behaviour those helpers rely on:
  - the "C" locale `isspace`, `ispunct` and `tolower` over ASCII
  - splitting on white space with `>>`
  - `getline` on '\n'
  - `std::string::find`
  - the `find_first_not_of` / `find_last_not_of` trimming idiom
- Module `Sorting` models `std::sort` with a "greater key first" comparator.
  Because `std::sort` is not stable, the model promises only a permutation
  ordered by non-increasing key.

## Model

| member | source | states |
|---|---|---|
| PrefixTrie.Trie.constructor | trie.cpp:12-14 | a new trie holds no words |
| PrefixTrie.Trie.Insert | trie.cpp:20-30 | the trie stays well formed, and its words become the old words plus `word`, so every earlier word stays searchable |
| PrefixTrie.Trie.Search | trie.cpp:57-66 | true exactly when the word was inserted; a missing character path, or a word that is only a proper prefix of inserted words, gives false |
| PrefixTrie.MarkWord | trie.cpp:27-29 | marking the end of a path keeps the trie well formed: a marked node stores exactly the characters on its root-to-node path, and the word set gains exactly that path |
| PrefixTrie.AddChild | trie.cpp:22-26 | creating a child node keeps the trie well formed and leaves the word set unchanged |
| PrefixTrie.MissingPathNoWords | trie.cpp:46-49 | when a prefix of `s` has no path in the trie, no stored word starts with `s`, so autocomplete is empty |
| PrefixTrie.InWordsIff | trie.cpp:57-66 | for a string that has a path, it is a word exactly when its node is marked |
| PrefixTrie.Trie.Autocomplete | trie.cpp:42-55 | the suggestions are exactly the stored words having the prefix, each listed once; for the empty prefix that is every word |
| PrefixTrie.Trie.FindAllWords | trie.cpp:32-40 | the words already collected are kept as they are; the words appended are exactly the stored words under the node, without duplicates |
| PrefixTrie.Trie.Clear | trie.cpp:68-71 | afterwards the trie is well formed and holds no words |
| PrefixTrie.ClearedTrieIsEmpty | trie.cpp:68-71 | after a clear no word is found and no prefix has a completion |
| KeywordIndex.HashMap.constructor | hashmap.h:15-18 | a new map has no postings and no file texts |
| KeywordIndex.HashMap.AddKeyword | hashmap.cpp:3-11 | the index becomes `AddKeywordSpec` of the old index; the file texts are untouched |
| KeywordIndex.HashMap.IncrementFrequency | hashmap.cpp:24-32 | has exactly the effect of `addKeyword` |
| KeywordIndex.BumpFirstMatch | hashmap.cpp:4-8 | when the file already has a posting, only the first such posting has its frequency raised by one |
| KeywordIndex.BumpNoMatch | hashmap.cpp:10 | when the file has no posting, `(file, 1)` is appended at the end and nothing else changes |
| KeywordIndex.BumpFrequency | hashmap.cpp:3-11 | one add raises the file's frequency by one and leaves every other file's frequency unchanged |
| KeywordIndex.BumpEntries | hashmap.cpp:3-11 | one add creates a posting only for a file that had none; the posting counts of other files are unchanged |
| KeywordIndex.AddKeywordRepeated | hashmap.cpp:3-11 | adding a keyword for a file `n` times, starting from no posting, leaves exactly one posting for the file, with frequency `n` |
| KeywordIndex.AddKeywordOthers | hashmap.cpp:3-11 | the postings of every other keyword are unchanged |
| KeywordIndex.AddKeywordValid | hashmap.cpp:6-10 | an add keeps every frequency at least 1 and each file in at most one posting, and the keyword is then present |
| KeywordIndex.AddKeywordsFrequency | hashmap.cpp:3-11 | after a sequence of adds for a file, each keyword's frequency for that file grows by its number of occurrences in the sequence; other files are unchanged |
| KeywordIndex.AddKeywordsEntries | hashmap.cpp:3-11 | after a sequence of adds, a file has at most the one posting created for it |
| KeywordIndex.AddKeywordsValid | hashmap.cpp:3-11 | a sequence of adds keeps the index valid, and the keywords present are the old ones plus those added |
| KeywordIndex.HashMap.GetFiles | hashmap.cpp:13-18 | a keyword that was never added has no postings; in a valid index the postings are positive and name each file once |
| KeywordIndex.HashMap.ContainsKeyword | hashmap.cpp:20-22 | a keyword with postings is contained |
| KeywordIndex.HashMap.SetIndex | hashmap.cpp:34-40 | `getIndex()` afterwards yields exactly the new index; the file texts are untouched |
| KeywordIndex.HashMap.StoreFileContent | hashmap.cpp:42-44 | last write wins: the file then has content and `getFileContent` returns this text; the index is untouched |
| KeywordIndex.HashMap.GetFileContent | hashmap.cpp:46-51 | a file never stored reads as "" |
| TopicGraph.Graph.AddEdge | graph.cpp:7-19 | the adjacency map becomes `AddEdgeSpec` of the old one |
| TopicGraph.Graph.AddTopic | graph.cpp:21-25 | the adjacency map becomes `AddTopicSpec` of the old one |
| TopicGraph.Graph.IncrementEdgeWeight | graph.cpp:74-76 | has exactly the effect of `addEdge` |
| TopicGraph.AddEdgeValid | graph.cpp:7-19 | `addEdge` keeps the graph valid: no self-edge (`addEdge(a, a)` does nothing), one edge per destination, weights of at least 1, and symmetric edge presence |
| TopicGraph.AddEdgeWeights | graph.cpp:10-18 | with `a != b`, the weight of a to b rises by one. The weight of b to a becomes 1 on a first co-occurrence and is unchanged on a repeat. Every other weight is unchanged |
| TopicGraph.AddEdgeConnects | graph.cpp:10-18 | after `addEdge(a, b)`, a and b are connected both ways; no other pair's connection changes |
| TopicGraph.AddEdgeMonotone | graph.cpp:7-19 | no weight ever decreases |
| TopicGraph.AddEdgeVertices | graph.cpp:17-18 | after `addEdge(a, b)` with `a != b`, both are vertices, and no other vertex appears |
| TopicGraph.PairWeights | graph.cpp:10-18 | after any sequence of steps, a pair is connected exactly when it was bumped, and the two directed weights add up to 1 plus the number of bumps on the pair in either order |
| TopicGraph.AddTopicFacts | graph.cpp:21-25 | `addTopic` is idempotent, makes the topic a vertex, changes no edge list and keeps the graph valid |
| TopicGraph.ApplyValid | graph.cpp:7-25 | every sequence of `addTopic` and `addEdge` steps keeps the graph valid |
| TopicGraph.Graph.ContainsTopic | graph.cpp:70-72 | in a valid graph, every topic some vertex links to is contained |
| TopicGraph.Graph.SetAdjacencyList | graph.cpp:78-84 | `getAdjacencyList()` afterwards yields exactly the new map |
| TopicGraph.Graph.GetAllTopics | graph.cpp:86-92 | each vertex is listed exactly once, and nothing else is listed |
| TopicGraph.EmitUnvisited | graph.cpp:45-49 | the pairs found before are kept in front. A pair is emitted for every edge to an unvisited destination, and for nothing else, so the topics emitted are exactly the unvisited destinations |
| TopicGraph.EnqueueUnvisited | graph.cpp:53-58 | every destination becomes visited. The queue keeps its entries in front, and the entries appended are exactly the newly visited destinations, each once, all at the next depth |
| TopicGraph.FrontierStep | graph.cpp:52-58 | breadth-first levels: the vertices exactly k + 1 hops out are those the edges out of level k reach that are not within k hops |
| TopicGraph.WithinStable | graph.cpp:39-60 | once one more hop reaches nothing new, no later hop does, so a walk that runs out of queue has seen every vertex within reach |
| TopicGraph.BfsShift | graph.cpp:39-43 | when the last vertex of level d leaves the queue, the entries behind it are exactly level d + 1, and the visited set is everything within d + 1 hops |
| TopicGraph.BfsStep | graph.cpp:40-59 | one dequeue keeps the walk's invariant: the queue is the rest of level d followed by the part of level d + 1 discovered so far; visited is everything within d hops plus that part; the topics emitted are those 2 to d hops out plus what the dequeued level-d vertices reach beyond d hops |
| TopicGraph.BfsEnd | graph.cpp:39-60 | with an empty queue and a depth of at least 1, the topics emitted are exactly those 2 to maxDepth + 1 hops from the start |
| TopicGraph.Expand | graph.cpp:40-59 | dequeues the front vertex, emits and enqueues as the depth allows, keeps the walk's invariant and shrinks the termination measure |
| TopicGraph.VisitNext | graph.cpp:39-59 | one turn of the loop keeps the walk's invariant, moving down a level first when the current one is done |
| TopicGraph.BreadthFirst | graph.cpp:33-60 | for a depth of at least 1, the topics of the pairs found are exactly the vertices 2 to maxDepth + 1 hops from the start; nothing is found for a depth of 0 or less; each pair is an edge of the graph |
| TopicGraph.Graph.GetRelatedTopics | graph.cpp:27-68 | empty for an absent topic or a depth of 0 or less. Otherwise the topics returned are exactly those 2 to maxDepth + 1 hops away. Sorted by non-increasing weight. Never the topic itself or one of its direct neighbours. Each pair is the destination and weight of an edge in the graph |
| TopicGraph.Graph.DfsCluster | graph.cpp:94-104 | the node is appended first; the members appended are new, distinct vertices, each reached from an earlier member by an edge of weight at least `minWeight`; they are exactly what becomes visited; every edge of weight at least `minWeight` out of them ends in a visited vertex |
| TopicGraph.Graph.FindTopicClusters | graph.cpp:106-128 | the clusters are pairwise disjoint, have at least 2 distinct vertices each and are sorted by non-increasing size. Each member after the first is reached by a strong enough edge from an earlier member. The ghost runs (every `dfsCluster` result, one-topic ones included) cover every topic, are pairwise disjoint, and every strong enough edge out of a run ends in that run or an earlier one. The clusters are, as a multiset, the runs with two or more members |
| TopicGraph.AppendRun | graph.cpp:110-118 | a run started at an unvisited topic keeps the runs disjoint and closed, makes the visited set exactly the members of the runs, and joins the kept clusters when it has two or more members |
| TopicGraph.ClustersPermuted | graph.cpp:122-125 | sorting the clusters keeps them pairwise disjoint and adds none |
| Sorting.SortDesc | graph.cpp:62-65 | a permutation of the input ordered by non-increasing key, which is what every `std::sort` with a "greater first" comparator returns |
| Sorting.TruncateKeepsLargest | server.cpp:110-116 | cutting a sorted sequence keeps a sorted sub-multiset, and nothing left out outranks anything kept |
| Sorting.NoDuplicatesCount | graph.cpp:122-125 | having no duplicates is the same as every multiplicity being at most one, the step that keeps the clusters duplicate-free when they are sorted by size |
| ResultHeap.MakeResult | heap.h:13-14 | a fresh result's relevance equals its frequency |
| ResultHeap.RootIsMax | heap.cpp:8-41 | in a heap ordered by the inverted `operator<`, the root is at least as relevant as every element |
| ResultHeap.Heap.Push | heap.cpp:3-6 | the heap order is kept, and the contents gain exactly the pushed result, so the size grows by one |
| ResultHeap.Heap.HeapifyUp | heap.cpp:8-18 | sifting up restores the heap order and keeps the contents |
| ResultHeap.Heap.HeapifyDown | heap.cpp:20-41 | sifting down restores the heap order and keeps the contents |
| ResultHeap.SwapUp | heap.cpp:11-13 | swapping a child that is more relevant than its parent moves the one violation up to the parent |
| ResultHeap.SwapDown | heap.cpp:27-36 | swapping a node with its more relevant child moves the one violation down to that child |
| ResultHeap.Heap.Pop | heap.cpp:43-49 | on a non-empty heap, returns the old root. That is a result of maximal relevance. Exactly one occurrence of it is removed, and the heap order is kept |
| ResultHeap.Heap.Empty | heap.cpp:51-53 | true exactly when the heap holds nothing |
| ResultHeap.Heap.Size | heap.cpp:55-57 | the number of results held, counted with repetition |
| ResultHeap.Heap.GetTopK | heap.cpp:59-73 | returns `min(k, size)` results (none for `k <= 0`), by non-increasing relevance, drawn from the heap, with nothing left out more relevant than anything taken; the heap itself is unchanged |
| ResultHeap.Heap.PopUpTo | heap.cpp:68-70 | the results popped, together with what stays, are the old contents. They are by non-increasing relevance, and nothing that stays outranks them |
| ResultHeap.Heap.Clear | heap.cpp:75-77 | the heap is empty and ordered |
| ResultHeap.FromSeq | heap.cpp:63-66 | pushing every element gives a valid heap with exactly those contents |
| Engine.SearchEngine.constructor | main.cpp:13-25 | every part starts empty |
| Engine.SearchEngine.ProcessKeywords | main.cpp:58-65 | keywords longer than two characters enter the trie and are counted once per occurrence for the file; shorter ones are ignored |
| Engine.LongKeywordsCount | main.cpp:59-63 | each kept keyword is counted as often as it occurs, and a keyword of two characters or fewer is never counted |
| Engine.LongTokens | main.cpp:58-65 | the tokenizer already drops every word of two characters or fewer, so the length filter keeps every token |
| Engine.SearchEngine.BuildGraphFromSentences | main.cpp:43-56 | the graph becomes `Apply` of the old graph and the upload's steps (`GraphOps`), and stays valid |
| Engine.SearchEngine.AddSentence | main.cpp:49-54 | for each position i, in order: token i becomes a vertex, then the pair (token i, token j) is bumped for every later j |
| Engine.TokenOpsTopics | main.cpp:49-50 | the topics added for a sentence are exactly its tokens |
| Engine.TokenOpsEdges | main.cpp:49-53 | the ordered pairs bumped are exactly the token pairs at positions i < j |
| Engine.TokenOpsPairCount | main.cpp:49-53 | a sentence bumps the pair a, b once for every pair of positions i < j holding a and b in either order, so repeated tokens bump more than once |
| Engine.SentenceOpsPairCount | main.cpp:46-55 | a text bumps a pair as often as the position pairs holding it, summed over the sentences |
| Engine.UploadPairWeights | main.cpp:43-56 | building the graph from a text, starting where a and b (a != b) are not connected, connects them exactly when some sentence holds both at two positions; the two weights then add up to one more than the number of such position pairs |
| Engine.SentenceOpsMembers | main.cpp:46-55 | a step is taken exactly when it is a step for one of the text's sentences |
| Engine.GraphOpsVertices | main.cpp:43-56 | every token of every sentence becomes a vertex, and no vertex is lost |
| Engine.SearchEngine.UploadFile | main.cpp:85-100 | the text is stored (last write wins), the file is appended to the upload list, and the trie gains the tokens. The index becomes `AddKeywordsSpec` of the tokens, and the graph takes the sentence steps. Every part stays valid |
| Engine.UploadIndexes | main.cpp:58-65 | each token's frequency for the file grows by its number of occurrences; other files are unchanged; a new posting is unique |
| Engine.SearchEngine.Search | main.cpp:102-112 | a permutation of the keyword's postings, by non-increasing frequency; empty for an unknown keyword |
| Engine.SearchEngine.GetRelatedTopics | main.cpp:114-116 | the graph query at depth 2: empty for an absent topic, otherwise exactly the topics 2 or 3 hops away, by non-increasing weight, each with the weight of an edge to it |
| Engine.SearchEngine.GetLearningPath | main.cpp:118-124 | empty when the topic is not a vertex; otherwise the graph's learning path for at most 8 topics |
| Engine.SearchEngine.GetSnippet | main.cpp:126-133 | "File content not available" when no text is stored; otherwise the snippet of the stored text with 8 context words |
| Simulated.SimulatedSearchEngine.constructor | server.cpp:6-11 | every part starts empty |
| Simulated.SimulatedSearchEngine.UploadFile | server.cpp:15-79 | the text is stored (last write wins) and the file appended. The index takes one add per kept word, and the graph is bumped for every windowed pair. Symmetric weights stay symmetric |
| Simulated.KeptWordsShape | server.cpp:20-29 | kept words are longer than two characters, hold no punctuation and each comes from a word of the text (not lower-cased) |
| Simulated.SimulatedSearchEngine.IndexWords | server.cpp:20-44 | the index takes `addKeyword` for each kept word in order, nothing else changes |
| Simulated.SimulatedSearchEngine.BuildCoOccurrences | server.cpp:47-76 | the graph is bumped both ways for every pair of words at positions i < j < i + 5, in order |
| Simulated.SimulatedSearchEngine.BumpToward | server.cpp:52-74 | one direction of a bump: the first edge is raised, or a weight-1 edge is appended |
| Simulated.CoPairsMembers | server.cpp:47-48 | word a is paired with word b exactly when b occurs one to four positions after a |
| Simulated.BumpPairWeight | server.cpp:47-76 | a bump of (w1, w2) raises both directed weights by one; for `w1 == w2` the self-loop weight rises by 2 |
| Simulated.BumpAllWeight | server.cpp:47-76 | each directed weight grows by the number of pairs on it in either order |
| Simulated.BumpAllSymmetric | server.cpp:47-76 | weights that are equal in both directions stay equal |
| Simulated.BumpAllKeys | server.cpp:47-76 | the vertices are the old ones plus both ends of every pair |
| Simulated.SimulatedSearchEngine.Search | server.cpp:82-98 | a permutation of the keyword's (file, frequency) pairs, by non-increasing frequency; empty for an absent keyword |
| Simulated.SimulatedSearchEngine.GetRelatedTopics | server.cpp:101-120 | empty for an absent topic; otherwise the `min(6, n)` heaviest direct neighbours, by non-increasing weight, drawn from the topic's list |
| Simulated.KeepHeaviest | server.cpp:110-116 | keeping the first six of the sorted list keeps the heaviest edges |
| Simulated.SimulatedSearchEngine.GetLearningPath | server.cpp:123-163 | empty exactly when the start is absent; otherwise it begins with the start. No topic repeats, and each later topic is what the greedy step chose. The length is at most `max(1, maxTopics)` under the `size_t` comparison, and the path stops early only when no step is left |
| Simulated.SimulatedSearchEngine.Scan | server.cpp:143-153 | one round scans every path member's edges and yields the running best |
| Simulated.ScanEdgesFacts | server.cpp:146-151 | the best only improves on a strictly heavier unvisited edge; no unvisited edge outweighs the result; a new result is an unvisited edge of the list, and every unvisited edge before it is strictly lighter, so the first of equal weights wins |
| Simulated.ScanTopicsFacts | server.cpp:143-153 | scanning the path members' lists in order yields the running best; a new result is an edge of some member's list, every unvisited edge of an earlier member is strictly lighter, and so is every unvisited edge before it in its own list |
| Simulated.NextStepFacts | server.cpp:139-159 | the next topic is new, is the end of an edge from a path member, and is at least as heavy as every unvisited neighbour of the path; of equal weights, the one on the earliest path member wins, and within its list the earliest edge |
| Simulated.ExtendPath | server.cpp:155-159 | appending the chosen topic keeps the path duplicate-free and greedy |
| Simulated.SimulatedSearchEngine.GetSnippet | server.cpp:171-214 | fixed message for a missing file; otherwise the snippet of the stored text |
| Simulated.SimSnippetCases | server.cpp:185-213 | the keyword-missing message comes back exactly when no lower-cased word contains the lower-cased keyword; otherwise the result is quoted and ends in `..."` |
| Simulated.FindLowered | server.cpp:186-198 | the first word whose lower-cased form contains the keyword, or -1 |
| Utils.Tokenize | utils.cpp:9-28 | the tokens are exactly `Tokens` of the words, and each is long enough, lower-case, not all digits, not a stop word and free of punctuation other than '_' and '-' |
| Utils.TokensWellFormed | utils.cpp:14-25 | every token of white-space-free words is well formed |
| Utils.IsImportantWord | utils.cpp:90-93 | important exactly when longer than two characters and not all digits |
| Text.ToLowerCase | utils.cpp:30-34 | the same length, each character lowered |
| Utils.ToLowerCaseIdempotent | utils.cpp:30-34 | lowering twice is lowering once |
| Utils.SplitIntoSentences | utils.cpp:62-88 | the sentences are the trimmed, non-blank chunks of the text cut after each terminator |
| Utils.ChunksShape | utils.cpp:66-85 | the chunks join back to the text. Every chunk is non-empty and ends at its only terminator, except a last fragment that has none |
| Utils.SentencesShape | utils.cpp:62-88 | every sentence is non-empty and trimmed of " \t\n\r". All but the last end with their only terminator; the last does too or holds none |
| Text.Trim | utils.cpp:69-70 | the result is a slice of the text with no trimmable space at either end, and everything cut off before and after it is " \t\n\r", so the result is fixed exactly |
| Utils.SnippetCases | utils.cpp:95-139 | "Keyword not found in context." exactly when no punctuation-stripped, lower-cased word contains the lower-cased keyword; otherwise a quoted body of at most 203 characters |
| Utils.ExtractSnippet | utils.cpp:95-139 | the snippet is `Snippet` of the text |
| Utils.FindKeyword | utils.cpp:104-118 | the first word whose search form contains the keyword, or -1 |
| Utils.JoinWindow | utils.cpp:125-131 | the words of the window, each followed by a space |
| Utils.WindowBounds | utils.cpp:125-126 | the window has at most `2c + 1` words and holds the keyword's word; it is empty for a negative `c` |
| Utils.Cut | utils.cpp:134-136 | a body over 200 characters is cut to 200 plus "..."; a shorter one is kept |
| Utils.ExtractParagraphs | utils.cpp:141-156 | the paragraphs are the trimmed lines longer than 10 characters, in order, each free of '\n' |
| Utils.ParagraphsWellFormed | utils.cpp:146-153 | every paragraph is longer than 10 characters, trimmed and free of '\n' |

## Left out

- I/O is not modelled: `Utils::readFile`, `SearchEngine::uploadNote`, the console code in `main.cpp` (lines 139-302) and every `std::cout` (including server.cpp line 78). The data persistence files and the browser script are not part of this model either.
- `searchengine.h` repeats the declaration of the class in `main.cpp` and has no logic of its own.
- `Graph::getLearningPath`, `printMindMap` and `exportMindMapAsDOT` are declared in graph.h but have no definition. `Engine.SearchEngine.GetLearningPath` therefore takes the learning-path function as a parameter and models only the guard around the call.
- Exceptions (`try`/`catch` in `uploadFile`) are not modelled. Nothing in the modelled code throws.
- `int` frequencies, weights and depths are unbounded integers. Signed 32-bit overflow is undefined behaviour in C++ and is not modelled.
- `SearchResult::relevance` is a `double`. It is modelled as an integer, because the only constructor sets it to the integer frequency.
- The trie's raw pointers, `new` and `delete` are modelled as an arena of nodes. `Clear` replaces the arena with a single root, so reclaiming memory is not modelled.
- `Trie.Insert` gives each new child the next arena index. Where nodes live in memory is not modelled.
- Iteration over `unordered_map` has no specified order. The model takes it as unspecified: keys are chosen with `:|`, and postconditions speak of sets and multisets. The order of `getAllTopics`, of `autocomplete` and of equal-key elements after a sort is left open.
- `operator[]` on an absent key inserts an empty entry. The lookups in `getRelatedTopics` and `dfsCluster` read an absent key as an empty list without inserting it. Such a key can occur only after `setAdjacencyList` installs a map whose destinations are not vertices.
- `Graph::getRelatedTopics` does not cut its result to six entries. The model follows the code. Only the simulated engine keeps six.
- `TopicGraph.Graph.GetRelatedTopics` and `Engine.SearchEngine.GetRelatedTopics` state which topics are returned, not how often. A topic on the last level is reported once per edge into it from the level before, and each report carries the weight of that edge. The contracts promise only that each reported weight is the weight of some edge to the topic.
- `TopicGraph.Graph.FindTopicClusters` does not promise that a cluster is a whole connected component. With directed weights, a later start can reach an earlier run through a strong edge that the earlier run could not follow back, and the code does not merge the two.
- `Simulated.SimSnippet` differs from `Utils.Snippet`, following server.cpp:
  - it does not strip punctuation before matching
  - it does not cut the body at 200 characters
  - its "not found" message has no final period
- `ResultHeap.Heap.Pop` requires a non-empty heap. In C++, `pop` on an empty heap reads `heap[0]` of an empty vector, which is undefined behaviour.
- `Engine.SearchEngine.GetUploadedFiles` and `Simulated.SimulatedSearchEngine.GetUploadedFiles` are plain reads with no contract. `UploadFile` states how the list they return grows.
- `KeywordIndex.HashMap.ContainsKeyword` states only that a keyword with postings is contained. A keyword with an empty posting list would only appear after `setIndex` installed one.
- `KeywordIndex.HashMap.GetIndex`, `KeywordIndex.HashMap.HasFileContent`, `TopicGraph.Graph.GetAdjacencyList` and `Utils.IsStopWord` are plain lookups. They are used in the other members' contracts and carry none of their own.
- The merge-conflict marker and the missing includes in server.cpp are ignored.
- In `isStopWord`, "should" is listed twice. As a set it counts once.
- `getLearningPath` in server.cpp compares `path.size()` (a `size_t`) with an `int`, so a negative `maxTopics` is converted to a huge unsigned bound. `Simulated.SizeT` models that conversion with a 64-bit `size_t`.
- Character classes follow the "C" locale over ASCII. Other encodings and locales are not modelled.
