/**
 * The text normalisation helpers of `Utils`: the document tokenizer, the
 * sentence splitter, the keyword-centred snippet and the paragraph splitter.
 */
module Utils {
  import opened Text

  /** The fixed stop-word list (the source lists "should" twice; as a set it counts once). */
  const StopWords: set<string> := {
    "the", "a", "an", "and", "or", "but", "in", "on", "at", "to", "for",
    "of", "with", "by", "as", "is", "was", "are", "were", "be", "been",
    "have", "has", "had", "do", "does", "did", "will", "would", "could",
    "should", "may", "might", "must", "this", "that", "these", "those",
    "it", "its", "they", "them", "their", "what", "which", "who", "whom",
    "when", "where", "why", "how", "all", "any", "both", "each", "few",
    "more", "most", "other", "some", "such", "no", "nor", "not", "only",
    "own", "same", "so", "than", "too", "very", "can", "just", "now"
  }

  /** Membership is exact and case-sensitive. */
  predicate IsStopWord(w: string) {
    w in StopWords
  }

  predicate AllDigits(w: string) {
    forall i :: 0 <= i < |w| ==> IsDigit(w[i])
  }

  /** A word is informative when it is longer than two characters and not a number. */
  predicate IsImportantWord(w: string)
    ensures IsImportantWord(w) <==> |w| > 2 && exists i :: 0 <= i < |w| && !IsDigit(w[i])
  {
    |w| > 2 && !AllDigits(w)
  }

  /** The characters `Tokenize` erases: punctuation other than '_' and '-'. */
  predicate IsTokenPunct(c: char) {
    IsPunct(c) && c != '_' && c != '-'
  }

  /** `token.erase(std::remove_if(..., IsTokenPunct), token.end())`. */
  function RemoveTokenPunct(s: string): (r: string)
    ensures |r| <= |s|
    ensures forall i :: 0 <= i < |r| ==> r[i] in s && !IsTokenPunct(r[i])
  {
    if s == [] then []
    else (if IsTokenPunct(s[0]) then [] else [s[0]]) + RemoveTokenPunct(s[1..])
  }

  /** `word.erase(std::remove_if(..., ispunct), word.end())`: every punctuation character erased. */
  function RemovePunct(s: string): (r: string)
    ensures |r| <= |s|
    ensures forall i :: 0 <= i < |r| ==> r[i] in s && !IsPunct(r[i])
  {
    if s == [] then []
    else (if IsPunct(s[0]) then [] else [s[0]]) + RemovePunct(s[1..])
  }

  /** What one whitespace-separated word becomes before it is filtered. */
  function Normalize(w: string): string {
    ToLowerCase(RemoveTokenPunct(w))
  }

  predicate KeepToken(t: string) {
    t != [] && !IsStopWord(t) && IsImportantWord(t)
  }

  /** The tokens of a sequence of raw words: normalised, filtered, in input order. */
  function Tokens(ws: seq<string>): seq<string>
  {
    if ws == [] then []
    else
      var t := Normalize(ws[|ws| - 1]);
      Tokens(ws[..|ws| - 1]) + (if KeepToken(t) then [t] else [])
  }

  /** What every emitted token satisfies. */
  predicate IsToken(t: string) {
    && |t| > 2
    && !IsStopWord(t)
    && !AllDigits(t)
    && NoSpace(t)
    && (forall i :: 0 <= i < |t| ==> !IsUpper(t[i]) && !IsTokenPunct(t[i]))
  }

  lemma NormalizeShape(w: string)
    requires NoSpace(w)
    ensures var t := Normalize(w);
      NoSpace(t) && forall i :: 0 <= i < |t| ==> !IsUpper(t[i]) && !IsTokenPunct(t[i])
  {
    var r := RemoveTokenPunct(w);
    var t := ToLowerCase(r);
    forall i | 0 <= i < |t| ensures !IsSpace(t[i]) && !IsTokenPunct(t[i]) {
      assert r[i] in w;
    }
  }

  lemma {:induction false} TokensWellFormed(ws: seq<string>)
    requires forall i :: 0 <= i < |ws| ==> NoSpace(ws[i])
    ensures forall i :: 0 <= i < |Tokens(ws)| ==> IsToken(Tokens(ws)[i])
  {
    if ws != [] {
      TokensWellFormed(ws[..|ws| - 1]);
      NormalizeShape(ws[|ws| - 1]);
    }
  }

  /**
   * `Utils::tokenize`: split on white space, erase punctuation except '_' and '-',
   * lower-case, and keep the informative words that are not stop words.
   */
  method Tokenize(text: string) returns (tokens: seq<string>)
    ensures tokens == Tokens(Words(text))
    ensures forall i :: 0 <= i < |tokens| ==> IsToken(tokens[i])
  {
    var ws := Words(text);
    tokens := [];
    for i := 0 to |ws|
      invariant tokens == Tokens(ws[..i])
    {
      assert ws[..i + 1][..i] == ws[..i];
      var token := RemoveTokenPunct(ws[i]);
      token := ToLowerCase(token);
      if token != [] && !IsStopWord(token) && IsImportantWord(token) {
        tokens := tokens + [token];
      }
    }
    assert ws[..|ws|] == ws;
    TokensWellFormed(ws);
  }

  lemma ToLowerCaseIdempotent(s: string)
    ensures ToLowerCase(ToLowerCase(s)) == ToLowerCase(s)
  {
  }

  // ---------------------------------------------------------------------------
  // Sentences

  predicate IsTerminator(c: char) {
    c == '.' || c == '!' || c == '?'
  }

  predicate NoTerminator(s: string) {
    forall i :: 0 <= i < |s| ==> !IsTerminator(s[i])
  }

  /** `s` ends with '.', '!' or '?' and holds no other terminator. */
  predicate EndsSentence(s: string) {
    s != [] && IsTerminator(s[|s| - 1]) && NoTerminator(s[..|s| - 1])
  }

  /**
   * The state of the sentence splitter after reading `read`: the pieces closed
   * so far (each ending at a terminator) and the piece still open.
   */
  function SplitAt(read: string): (seq<string>, string) {
    if read == [] then ([], [])
    else
      var (cs, current) := SplitAt(read[..|read| - 1]);
      var c := read[|read| - 1];
      if IsTerminator(c) then (cs + [current + [c]], []) else (cs, current + [c])
  }

  /** The pieces `text` is cut into after every '.', '!' and '?', the unterminated rest last. */
  function Chunks(text: string): seq<string> {
    var (cs, current) := SplitAt(text);
    if current == [] then cs else cs + [current]
  }

  /** The trimmed chunks that are not blank, in order. */
  function NonBlankTrims(chunks: seq<string>): seq<string> {
    if chunks == [] then []
    else
      var t := Trim(chunks[|chunks| - 1]);
      NonBlankTrims(chunks[..|chunks| - 1]) + (if t == [] then [] else [t])
  }

  /** What `splitIntoSentences` returns for `text`. */
  function Sentences(text: string): seq<string> {
    NonBlankTrims(Chunks(text))
  }

  /** The text the chunks were cut from. */
  function Concat(chunks: seq<string>): string {
    if chunks == [] then [] else Concat(chunks[..|chunks| - 1]) + chunks[|chunks| - 1]
  }

  /** Every piece ends a sentence. */
  predicate AllEndSentence(cs: seq<string>) {
    forall k :: 0 <= k < |cs| ==> EndsSentence(cs[k])
  }

  /** Every piece is a non-empty, trimmed, complete sentence. */
  predicate AllTrimmedSentences(ss: seq<string>) {
    forall k :: 0 <= k < |ss| ==> ss[k] != [] && Trimmed(ss[k]) && EndsSentence(ss[k])
  }

  lemma SplitAtStep(read: string, c: char)
    ensures SplitAt(read + [c]) ==
      var (cs, current) := SplitAt(read);
      if IsTerminator(c) then (cs + [current + [c]], []) else (cs, current + [c])
  {
    assert (read + [c])[..|read|] == read;
  }

  lemma AppendChunk(chunks: seq<string>, c: string)
    ensures Concat(chunks + [c]) == Concat(chunks) + c
    ensures NonBlankTrims(chunks + [c]) == NonBlankTrims(chunks) + (if Trim(c) == [] then [] else [Trim(c)])
  {
    assert (chunks + [c])[..|chunks|] == chunks;
  }

  /** The splitter's state always re-assembles the text read; every closed piece ends a sentence and the open piece holds no terminator. */
  lemma {:induction false} SplitAtShape(read: string)
    ensures var (cs, current) := SplitAt(read);
      Concat(cs) + current == read && AllEndSentence(cs) && NoTerminator(current)
  {
    if read != [] {
      var prefix, c := read[..|read| - 1], read[|read| - 1];
      assert read == prefix + [c];
      SplitAtShape(prefix);
      SplitAtStep(prefix, c);
      var (cs, current) := SplitAt(prefix);
      if IsTerminator(c) {
        CloseSentence(cs, current, c);
      } else {
        ExtendFragment(cs, current, c);
      }
    }
  }

  /** Reading a terminator closes the open piece as a sentence. */
  lemma CloseSentence(cs: seq<string>, current: string, c: char)
    requires AllEndSentence(cs) && NoTerminator(current) && IsTerminator(c)
    ensures Concat(cs + [current + [c]]) == Concat(cs) + current + [c]
    ensures AllEndSentence(cs + [current + [c]])
  {
    var piece := current + [c];
    assert piece[..|piece| - 1] == current;
    AppendChunk(cs, piece);
    AppendEndSentence(cs, piece);
  }

  /** Reading any other character extends the open piece. */
  lemma ExtendFragment(cs: seq<string>, current: string, c: char)
    requires NoTerminator(current) && !IsTerminator(c)
    ensures Concat(cs) + (current + [c]) == Concat(cs) + current + [c]
    ensures NoTerminator(current + [c])
  {
  }

  lemma AppendEndSentence(cs: seq<string>, piece: string)
    requires AllEndSentence(cs) && EndsSentence(piece)
    ensures AllEndSentence(cs + [piece])
  {
    forall k | 0 <= k < |cs| + 1 ensures EndsSentence((cs + [piece])[k]) {
      if k < |cs| {
        assert (cs + [piece])[k] == cs[k];
      }
    }
  }

  lemma AppendTrimmedSentence(ss: seq<string>, t: string)
    requires AllTrimmedSentences(ss) && t != [] && Trimmed(t) && EndsSentence(t)
    ensures AllTrimmedSentences(ss + [t])
  {
    forall k | 0 <= k < |ss| + 1 ensures (ss + [t])[k] != [] && Trimmed((ss + [t])[k]) && EndsSentence((ss + [t])[k]) {
      if k < |ss| {
        assert (ss + [t])[k] == ss[k];
      }
    }
  }

  lemma TrimSentence(c: string)
    requires EndsSentence(c)
    ensures Trim(c) != [] && EndsSentence(Trim(c))
  {
    var t, a, n := Trim(c), TrimStart(c), |c|;
    assert !IsTrimSpace(c[n - 1]);
    assert t == c[a..];
    SuffixSentence(c, a);
  }

  /** A suffix of a complete sentence that is not empty is a complete sentence. */
  lemma SuffixSentence(c: string, a: nat)
    requires EndsSentence(c) && a < |c|
    ensures EndsSentence(c[a..])
  {
    var t, n := c[a..], |c|;
    var body := t[..|t| - 1];
    forall i | 0 <= i < |body| ensures !IsTerminator(body[i]) {
      assert body[i] == c[..n - 1][a + i];
    }
  }

  lemma TrimFragment(c: string)
    requires NoTerminator(c)
    ensures NoTerminator(Trim(c))
  {
    var t, a := Trim(c), TrimStart(c);
    NoTerminatorSlice(c, a, a + |t|);
  }

  /** A slice of a piece without terminators has none either. */
  lemma NoTerminatorSlice(c: string, a: nat, b: nat)
    requires a <= b <= |c| && NoTerminator(c)
    ensures NoTerminator(c[a..b])
  {
    forall i | 0 <= i < b - a ensures !IsTerminator(c[a..b][i]) {
      assert c[a..b][i] == c[a + i];
    }
  }

  /** Trimming complete sentences keeps them complete, and none of them is blank. */
  lemma {:induction false} TrimsOfSentences(cs: seq<string>)
    requires AllEndSentence(cs)
    ensures AllTrimmedSentences(NonBlankTrims(cs))
  {
    if cs != [] {
      var init := cs[..|cs| - 1];
      assert AllEndSentence(init) by {
        forall k | 0 <= k < |init| ensures EndsSentence(init[k]) {
          assert init[k] == cs[k];
        }
      }
      TrimsOfSentences(init);
      TrimSentence(cs[|cs| - 1]);
      AppendTrimmedSentence(NonBlankTrims(init), Trim(cs[|cs| - 1]));
    }
  }

  /**
   * The chunks re-assemble the text; each is non-empty and ends a sentence,
   * except that the last may be a fragment holding no terminator.
   */
  lemma ChunksShape(text: string)
    ensures Concat(Chunks(text)) == text
    ensures var chunks := Chunks(text); forall k :: 0 <= k < |chunks| ==>
      chunks[k] != [] && (EndsSentence(chunks[k]) || (k == |chunks| - 1 && NoTerminator(chunks[k])))
  {
    SplitAtShape(text);
    var (cs, current) := SplitAt(text);
    if current != [] {
      AppendChunk(cs, current);
      var chunks := cs + [current];
      forall k | 0 <= k < |chunks|
        ensures chunks[k] != [] && (EndsSentence(chunks[k]) || (k == |chunks| - 1 && NoTerminator(chunks[k])))
      {
        if k < |cs| {
          assert chunks[k] == cs[k];
        }
      }
    }
  }

  /**
   * Every sentence is non-empty and trimmed; all but the last end with a
   * terminator and hold no other; the last does the same or holds none.
   */
  lemma SentencesShape(text: string)
    ensures SentenceShaped(Sentences(text))
  {
    SplitAtShape(text);
    var (cs, current) := SplitAt(text);
    TrimsOfSentences(cs);
    var ts := NonBlankTrims(cs);
    if current != [] {
      AppendChunk(cs, current);
      TrimFragment(current);
      FragmentLast(ts, Trim(current));
    } else {
      FragmentLast(ts, []);
    }
  }

  /** Every piece is non-empty and trimmed; all but the last end a sentence, and the last either ends one or holds no terminator. */
  predicate SentenceShaped(ss: seq<string>) {
    && (forall k :: 0 <= k < |ss| ==> ss[k] != [] && Trimmed(ss[k]))
    && (forall k :: 0 <= k < |ss| - 1 ==> EndsSentence(ss[k]))
    && (ss != [] ==> EndsSentence(ss[|ss| - 1]) || NoTerminator(ss[|ss| - 1]))
  }

  lemma FragmentLast(ts: seq<string>, t: string)
    requires AllTrimmedSentences(ts) && Trimmed(t) && NoTerminator(t)
    ensures SentenceShaped(ts + (if t == [] then [] else [t]))
  {
    var ss := ts + (if t == [] then [] else [t]);
    forall k | 0 <= k < |ss| ensures ss[k] != [] && Trimmed(ss[k]) && (k < |ts| ==> EndsSentence(ss[k])) {
      if k < |ts| {
        assert ss[k] == ts[k];
      }
    }
  }

  /**
   * `Utils::splitIntoSentences`: every '.', '!' or '?' closes the current
   * piece, which is trimmed and kept unless blank; a non-empty rest is
   * trimmed and kept the same way. The ghost `chunks` are the untrimmed pieces.
   */
  method SplitIntoSentences(text: string) returns (sentences: seq<string>, ghost chunks: seq<string>)
    ensures chunks == Chunks(text) && sentences == Sentences(text)
  {
    sentences, chunks := [], [];
    var current := [];
    for i := 0 to |text|
      invariant (chunks, current) == SplitAt(text[..i])
      invariant sentences == NonBlankTrims(chunks)
    {
      assert text[..i + 1] == text[..i] + [text[i]];
      SplitAtStep(text[..i], text[i]);
      current := current + [text[i]];
      if IsTerminator(text[i]) {
        var t := Trim(current);
        if t != [] {
          sentences := sentences + [t];
        }
        AppendChunk(chunks, current);
        chunks := chunks + [current];
        current := [];
      }
    }
    assert text[..|text|] == text;
    if current != [] {
      var t := Trim(current);
      if t != [] {
        sentences := sentences + [t];
      }
      AppendChunk(chunks, current);
      chunks := chunks + [current];
    }
  }

  // ---------------------------------------------------------------------------
  // Snippets

  const NotFoundInContext: string := "Keyword not found in context."

  /** Each word lower-cased and stripped of punctuation: what `extractSnippet` searches for the keyword. */
  function SearchForms(ws: seq<string>): (r: seq<string>)
    ensures |r| == |ws|
    ensures forall i :: 0 <= i < |ws| ==> r[i] == RemovePunct(ToLowerCase(ws[i]))
  {
    seq(|ws|, i requires 0 <= i < |ws| => RemovePunct(ToLowerCase(ws[i])))
  }

  /** The words `[max(0, p - c), min(n, p + c + 1))` around position `p`; none when that range is empty. */
  function Window(ws: seq<string>, p: nat, c: int): seq<string>
    requires p < |ws|
  {
    var start := if p - c > 0 then p - c else 0;
    var end := if |ws| < p + c + 1 then |ws| else p + c + 1;
    if start < end then ws[start..end] else []
  }

  /** Every word followed by one space. */
  function Spaced(ws: seq<string>): string {
    if ws == [] then [] else Spaced(ws[..|ws| - 1]) + ws[|ws| - 1] + " "
  }

  /** `if (snippet.length() > 200) snippet = snippet.substr(0, 200) + "...";` */
  function Cut(body: string): (r: string)
    ensures |r| <= 203
    ensures |body| <= 200 ==> r == body
    ensures |body| > 200 ==> |r| == 203 && r[..200] == body[..200] && r[200..] == "..."
  {
    if |body| > 200 then body[..200] + "..." else body
  }

  /** What `extractSnippet` returns. */
  function Snippet(content: string, keyword: string, contextWords: int): string {
    var ws := Words(content);
    var p := FirstContaining(SearchForms(ws), ToLowerCase(keyword), 0);
    if p < 0 then NotFoundInContext else "\"" + Cut(Spaced(Window(ws, p, contextWords))) + "\""
  }

  /**
   * The snippet reports the keyword missing exactly when no word's search form
   * contains the lower-cased keyword; otherwise it is a quoted body of at most
   * 203 characters.
   */
  lemma SnippetCases(content: string, keyword: string, contextWords: int)
    ensures Snippet(content, keyword, contextWords) == NotFoundInContext <==>
      forall j :: 0 <= j < |Words(content)| ==> !Contains(SearchForms(Words(content))[j], ToLowerCase(keyword))
    ensures Snippet(content, keyword, contextWords) != NotFoundInContext ==>
      var r := Snippet(content, keyword, contextWords);
      2 <= |r| <= 205 && r[0] == '"' && r[|r| - 1] == '"'
  {
    var forms := SearchForms(Words(content));
    var p := FirstContaining(forms, ToLowerCase(keyword), 0);
    var r := Snippet(content, keyword, contextWords);
    if p >= 0 {
      assert r[0] == '"' && NotFoundInContext[0] == 'K';
      assert p < |Words(content)| && Contains(forms[p], ToLowerCase(keyword));
    } else {
      forall j | 0 <= j < |Words(content)| ensures !Contains(SearchForms(Words(content))[j], ToLowerCase(keyword)) {
        assert forms[j] == SearchForms(Words(content))[j];
      }
    }
  }

  /**
   * `Utils::extractSnippet`: the window of `contextWords` words on each side of the
   * first word containing the keyword (both lower-cased, punctuation ignored), each
   * word followed by a space, cut to 200 characters, quoted.
   */
  method ExtractSnippet(content: string, keyword: string, contextWords: int) returns (snippet: string)
    ensures snippet == Snippet(content, keyword, contextWords)
  {
    var words := Words(content);
    var lowerKeyword := ToLowerCase(keyword);
    var keywordPos := FindKeyword(words, lowerKeyword);
    if keywordPos == -1 {
      return NotFoundInContext;
    }
    var body := JoinWindow(words, keywordPos, contextWords);
    if |body| > 200 {
      body := body[..200] + "...";
    }
    assert body == Cut(Spaced(Window(words, keywordPos, contextWords)));
    snippet := "\"" + body + "\"";
  }

  /** The search loop of `extractSnippet`: the first word whose lower-cased, punctuation-free form contains the keyword. */
  method FindKeyword(words: seq<string>, lowerKeyword: string) returns (keywordPos: int)
    ensures keywordPos == FirstContaining(SearchForms(words), lowerKeyword, 0)
  {
    ghost var forms := SearchForms(words);
    keywordPos := -1;
    var i := 0;
    while i < |words|
      invariant 0 <= i <= |words|
      invariant FirstContaining(forms, lowerKeyword, 0) == FirstContaining(forms, lowerKeyword, i)
    {
      var lowerWord := ToLowerCase(words[i]);
      lowerWord := RemovePunct(lowerWord);
      if Contains(lowerWord, lowerKeyword) {
        keywordPos := i;
        return;
      }
      i := i + 1;
    }
  }

  /**
   * The window loop of `extractSnippet`: from `max(0, p - c)` up to
   * `min(n, p + c + 1)`, append each word and a space.
   */
  method JoinWindow(words: seq<string>, p: nat, c: int) returns (body: string)
    requires p < |words|
    ensures body == Spaced(Window(words, p, c))
  {
    var start := if p - c > 0 then p - c else 0;
    var end := if |words| < p + c + 1 then |words| else p + c + 1;
    body := "";
    var k := start;
    while k < end
      invariant start <= k
      invariant start < end ==> k <= end && body == Spaced(words[start..k])
      invariant start >= end ==> body == ""
    {
      assert words[start..k + 1] == words[start..k] + [words[k]];
      body := body + words[k] + " ";
      k := k + 1;
    }
  }

  /** A window never holds more than `2c + 1` words, and for `c >= 0` it holds the matched word. */
  lemma WindowBounds(ws: seq<string>, p: nat, c: int)
    requires p < |ws|
    ensures c >= 0 ==> |Window(ws, p, c)| <= 2 * c + 1
    ensures c >= 0 ==> ws[p] in Window(ws, p, c)
    ensures c < 0 ==> Window(ws, p, c) == []
  {
    if c >= 0 {
      var start := if p - c > 0 then p - c else 0;
      assert Window(ws, p, c)[p - start] == ws[p];
    }
  }

  // ---------------------------------------------------------------------------
  // Paragraphs

  /** The trimmed lines longer than ten characters, in order. */
  function Paragraphs(ls: seq<string>): seq<string> {
    if ls == [] then []
    else
      var p := Trim(ls[|ls| - 1]);
      Paragraphs(ls[..|ls| - 1]) + (if p != [] && |p| > 10 then [p] else [])
  }

  lemma ParagraphsStep(ls: seq<string>, i: nat)
    requires i < |ls|
    ensures Paragraphs(ls[..i + 1]) == Paragraphs(ls[..i]) + (if Trim(ls[i]) != [] && |Trim(ls[i])| > 10 then [Trim(ls[i])] else [])
  {
    assert ls[..i + 1][..i] == ls[..i];
  }

  lemma TrimNoNewline(l: string)
    requires '\n' !in l
    ensures '\n' !in Trim(l)
  {
    var t := Trim(l);
    var a := TrimStart(l);
    forall i | 0 <= i < |t| ensures t[i] != '\n' {
      assert t[i] == l[a + i];
    }
  }

  lemma {:induction false} ParagraphsWellFormed(ls: seq<string>)
    requires forall i :: 0 <= i < |ls| ==> '\n' !in ls[i]
    ensures forall i :: 0 <= i < |Paragraphs(ls)| ==>
      var p := Paragraphs(ls)[i]; |p| > 10 && Trimmed(p) && '\n' !in p
  {
    if ls != [] {
      ParagraphsWellFormed(ls[..|ls| - 1]);
      TrimNoNewline(ls[|ls| - 1]);
    }
  }

  /** `Utils::extractParagraphs`: the '\n'-separated lines, trimmed, longer than ten characters. */
  method ExtractParagraphs(content: string) returns (paragraphs: seq<string>)
    ensures paragraphs == Paragraphs(Lines(content))
    ensures forall i :: 0 <= i < |paragraphs| ==>
      |paragraphs[i]| > 10 && Trimmed(paragraphs[i]) && '\n' !in paragraphs[i]
  {
    var ls := Lines(content);
    paragraphs := [];
    for i := 0 to |ls|
      invariant paragraphs == Paragraphs(ls[..i])
    {
      ParagraphsStep(ls, i);
      var paragraph := Trim(ls[i]);
      if paragraph != [] && |paragraph| > 10 {
        paragraphs := paragraphs + [paragraph];
      }
    }
    assert ls[..|ls|] == ls;
    ParagraphsWellFormed(ls);
  }
}
