/**
 * The inverted keyword index and the file-content store (`HashMap` in
 * hashmap.h/hashmap.cpp): every keyword maps to its postings, one
 * `FileInfo(filename, frequency)` per file it occurs in, and every file name
 * maps to the text last stored for it.
 */
module KeywordIndex {

  /** One posting: a file and how often the keyword occurs in it. */
  datatype FileInfo = FileInfo(filename: string, frequency: int)

  type Index = map<string, seq<FileInfo>>

  /** `keywordIndex[keyword]` as a lookup: the postings of `keyword`, none when it was never added. */
  function Postings(index: Index, keyword: string): seq<FileInfo> {
    if keyword in index then index[keyword] else []
  }

  /** How many postings name `f`. */
  function Entries(ps: seq<FileInfo>, f: string): nat {
    if ps == [] then 0 else (if ps[0].filename == f then 1 else 0) + Entries(ps[1..], f)
  }

  /** The frequency of the first posting for `f`, 0 when there is none. */
  function FrequencyOf(ps: seq<FileInfo>, f: string): int {
    if ps == [] then 0 else if ps[0].filename == f then ps[0].frequency else FrequencyOf(ps[1..], f)
  }

  /** Every posting has a frequency of at least 1. */
  predicate AllPositive(ps: seq<FileInfo>) {
    forall i :: 0 <= i < |ps| ==> ps[i].frequency >= 1
  }

  /** No file has two postings. */
  predicate UniqueFiles(ps: seq<FileInfo>) {
    forall i, j :: 0 <= i < j < |ps| ==> ps[i].filename != ps[j].filename
  }

  /** What every list of postings built by `addKeyword` satisfies. */
  predicate ValidIndex(index: Index) {
    forall k :: k in index ==> AllPositive(index[k]) && UniqueFiles(index[k])
  }

  /**
   * The postings after one more occurrence of the keyword in `f`: the first
   * posting for `f` has its frequency raised by one, or, when there is none,
   * `FileInfo(f, 1)` is appended.
   */
  function Bump(ps: seq<FileInfo>, f: string): seq<FileInfo> {
    if ps == [] then [FileInfo(f, 1)]
    else if ps[0].filename == f then [ps[0].(frequency := ps[0].frequency + 1)] + ps[1..]
    else [ps[0]] + Bump(ps[1..], f)
  }

  /** The index after `addKeyword(keyword, filename)`. */
  function AddKeywordSpec(index: Index, keyword: string, filename: string): Index {
    index[keyword := Bump(Postings(index, keyword), filename)]
  }

  // ---------------------------------------------------------------------------
  // What one bump does

  /** When the first posting for `f` is at `i`, a bump raises exactly that posting. */
  lemma {:induction false} BumpFirstMatch(ps: seq<FileInfo>, f: string, i: nat)
    requires i < |ps| && ps[i].filename == f
    requires forall j :: 0 <= j < i ==> ps[j].filename != f
    ensures Bump(ps, f) == ps[i := ps[i].(frequency := ps[i].frequency + 1)]
  {
    if i > 0 {
      BumpFirstMatch(ps[1..], f, i - 1);
      assert ps[i := ps[i].(frequency := ps[i].frequency + 1)]
          == [ps[0]] + ps[1..][i - 1 := ps[i].(frequency := ps[i].frequency + 1)];
    }
  }

  /** When no posting names `f`, a bump appends `FileInfo(f, 1)` at the end and changes nothing else. */
  lemma {:induction false} BumpNoMatch(ps: seq<FileInfo>, f: string)
    requires forall j :: 0 <= j < |ps| ==> ps[j].filename != f
    ensures Bump(ps, f) == ps + [FileInfo(f, 1)]
  {
    if ps != [] {
      BumpNoMatch(ps[1..], f);
      assert ps == [ps[0]] + ps[1..];
    }
  }

  /** A bump raises the frequency recorded for `f` by one and leaves every other file's as it was. */
  lemma {:induction false} BumpFrequency(ps: seq<FileInfo>, f: string, g: string)
    ensures FrequencyOf(Bump(ps, f), g) == FrequencyOf(ps, g) + (if g == f then 1 else 0)
  {
    if ps != [] && ps[0].filename != f {
      BumpFrequency(ps[1..], f, g);
    }
  }

  /** After a bump `f` has at least one posting, and no file gains a second one. */
  lemma {:induction false} BumpEntries(ps: seq<FileInfo>, f: string, g: string)
    ensures Entries(Bump(ps, f), g) == if g == f && Entries(ps, f) == 0 then 1 else Entries(ps, g)
  {
    if ps != [] && ps[0].filename != f {
      BumpEntries(ps[1..], f, g);
    }
  }

  /** A bump keeps every frequency positive and every file's postings unique. */
  lemma {:induction false} BumpValid(ps: seq<FileInfo>, f: string)
    requires AllPositive(ps) && UniqueFiles(ps)
    ensures AllPositive(Bump(ps, f)) && UniqueFiles(Bump(ps, f))
  {
    if ps != [] && ps[0].filename != f {
      BumpValid(ps[1..], f);
      var r := Bump(ps[1..], f);
      forall j | 0 <= j < |r| ensures r[j].filename != ps[0].filename {
        if r[j].filename == ps[0].filename {
          BumpEntries(ps[1..], f, ps[0].filename);
          EntriesPositive(r, j);
          NotNamed(ps[1..], ps[0].filename);
        }
      }
    }
  }

  lemma {:induction false} EntriesPositive(ps: seq<FileInfo>, j: nat)
    requires j < |ps|
    ensures Entries(ps, ps[j].filename) >= 1
  {
    if j > 0 {
      EntriesPositive(ps[1..], j - 1);
    }
  }

  lemma {:induction false} NotNamed(ps: seq<FileInfo>, f: string)
    requires forall j :: 0 <= j < |ps| ==> ps[j].filename != f
    ensures Entries(ps, f) == 0
  {
    if ps != [] {
      NotNamed(ps[1..], f);
    }
  }

  /** `addKeyword` keeps the index valid, and afterwards the keyword is present. */
  lemma AddKeywordValid(index: Index, keyword: string, filename: string)
    requires ValidIndex(index)
    ensures ValidIndex(AddKeywordSpec(index, keyword, filename))
    ensures keyword in AddKeywordSpec(index, keyword, filename)
  {
    BumpValid(Postings(index, keyword), filename);
  }

  // ---------------------------------------------------------------------------
  // Repeated occurrences

  /** The index after `n` calls of `addKeyword(keyword, filename)`. */
  function AddKeywordTimes(index: Index, keyword: string, filename: string, n: nat): Index {
    if n == 0 then index else AddKeywordSpec(AddKeywordTimes(index, keyword, filename, n - 1), keyword, filename)
  }

  /**
   * Adding a keyword for a file `n` times, starting where the file has no
   * posting for it, leaves exactly one posting for that file, with frequency `n`.
   */
  lemma {:induction false} AddKeywordRepeated(index: Index, keyword: string, filename: string, n: nat)
    requires Entries(Postings(index, keyword), filename) == 0
    requires FrequencyOf(Postings(index, keyword), filename) == 0
    ensures var ps := Postings(AddKeywordTimes(index, keyword, filename, n), keyword);
      && Entries(ps, filename) == (if n == 0 then 0 else 1)
      && FrequencyOf(ps, filename) == n
  {
    if n > 0 {
      AddKeywordRepeated(index, keyword, filename, n - 1);
      var ps := Postings(AddKeywordTimes(index, keyword, filename, n - 1), keyword);
      BumpEntries(ps, filename, filename);
      BumpFrequency(ps, filename, filename);
    }
  }

  /** Adding a keyword for one file changes no other keyword's postings. */
  lemma AddKeywordOthers(index: Index, keyword: string, filename: string, other: string)
    requires other != keyword
    ensures Postings(AddKeywordSpec(index, keyword, filename), other) == Postings(index, other)
  {
  }

  // ---------------------------------------------------------------------------
  // A list of keywords

  /** The index after `addKeyword(k, filename)` for every `k` of `keywords`, in order. */
  function AddKeywordsSpec(index: Index, keywords: seq<string>, filename: string): Index {
    if keywords == [] then index
    else AddKeywordSpec(AddKeywordsSpec(index, keywords[..|keywords| - 1], filename), keywords[|keywords| - 1], filename)
  }

  lemma AddKeywordsSnoc(index: Index, keywords: seq<string>, k: string, filename: string)
    ensures AddKeywordsSpec(index, keywords + [k], filename) == AddKeywordSpec(AddKeywordsSpec(index, keywords, filename), k, filename)
  {
    assert (keywords + [k])[..|keywords|] == keywords;
  }

  /**
   * Adding a list of keywords for `filename` raises that file's frequency for
   * each keyword by the keyword's number of occurrences in the list, and leaves
   * every other file's frequency as it was.
   */
  lemma {:induction false} AddKeywordsFrequency(index: Index, keywords: seq<string>, filename: string, k: string, g: string)
    ensures FrequencyOf(Postings(AddKeywordsSpec(index, keywords, filename), k), g)
      == FrequencyOf(Postings(index, k), g) + (if g == filename then multiset(keywords)[k] else 0)
  {
    if keywords != [] {
      var init, last := keywords[..|keywords| - 1], keywords[|keywords| - 1];
      assert keywords == init + [last];
      AddKeywordsFrequency(index, init, filename, k, g);
      var prev := AddKeywordsSpec(index, init, filename);
      if last == k {
        BumpFrequency(Postings(prev, k), filename, g);
      } else {
        AddKeywordOthers(prev, last, filename, k);
      }
    }
  }

  /**
   * After adding a list of keywords for `filename`, a keyword of the list has
   * exactly one posting for the file when it had none before; no other count
   * of postings changes.
   */
  lemma {:induction false} AddKeywordsEntries(index: Index, keywords: seq<string>, filename: string, k: string, g: string)
    ensures Entries(Postings(AddKeywordsSpec(index, keywords, filename), k), g)
      == if g == filename && k in keywords && Entries(Postings(index, k), g) == 0 then 1 else Entries(Postings(index, k), g)
  {
    if keywords != [] {
      var init, last := keywords[..|keywords| - 1], keywords[|keywords| - 1];
      assert keywords == init + [last];
      AddKeywordsEntries(index, init, filename, k, g);
      var prev := AddKeywordsSpec(index, init, filename);
      if last == k {
        BumpEntries(Postings(prev, k), filename, g);
        AddKeywordsEntries(index, init, filename, k, filename);
      } else {
        AddKeywordOthers(prev, last, filename, k);
      }
    }
  }

  /** Adding a list of keywords keeps the index valid and makes exactly the listed keywords present besides the old ones. */
  lemma {:induction false} AddKeywordsValid(index: Index, keywords: seq<string>, filename: string)
    requires ValidIndex(index)
    ensures ValidIndex(AddKeywordsSpec(index, keywords, filename))
    ensures AddKeywordsSpec(index, keywords, filename).Keys == index.Keys + set k | k in keywords
  {
    if keywords != [] {
      var init, last := keywords[..|keywords| - 1], keywords[|keywords| - 1];
      assert keywords == init + [last];
      AddKeywordsValid(index, init, filename);
      AddKeywordValid(AddKeywordsSpec(index, init, filename), last, filename);
    }
  }

  // ---------------------------------------------------------------------------
  // The index object

  class HashMap {
    var keywordIndex: Index
    var fileContents: map<string, string>

    constructor ()
      ensures keywordIndex == map[] && fileContents == map[]
    {
      keywordIndex := map[];
      fileContents := map[];
    }

    /**
     * `HashMap::addKeyword`: scan the keyword's postings for the file; raise
     * its frequency if found, otherwise append `FileInfo(filename, 1)`.
     */
    method AddKeyword(keyword: string, filename: string)
      modifies this
      ensures keywordIndex == AddKeywordSpec(old(keywordIndex), keyword, filename)
      ensures fileContents == old(fileContents)
    {
      var ps := Postings(keywordIndex, keyword);
      for i := 0 to |ps|
        invariant forall j :: 0 <= j < i ==> ps[j].filename != filename
        invariant keywordIndex == old(keywordIndex)
      {
        if ps[i].filename == filename {
          BumpFirstMatch(ps, filename, i);
          keywordIndex := keywordIndex[keyword := ps[i := ps[i].(frequency := ps[i].frequency + 1)]];
          return;
        }
      }
      BumpNoMatch(ps, filename);
      keywordIndex := keywordIndex[keyword := ps + [FileInfo(filename, 1)]];
    }

    /** `HashMap::incrementFrequency`: the same scan as `addKeyword`, with the same effect. */
    method IncrementFrequency(keyword: string, filename: string)
      modifies this
      ensures keywordIndex == AddKeywordSpec(old(keywordIndex), keyword, filename)
      ensures fileContents == old(fileContents)
    {
      var ps := Postings(keywordIndex, keyword);
      for i := 0 to |ps|
        invariant forall j :: 0 <= j < i ==> ps[j].filename != filename
        invariant keywordIndex == old(keywordIndex)
      {
        if ps[i].filename == filename {
          BumpFirstMatch(ps, filename, i);
          keywordIndex := keywordIndex[keyword := ps[i := ps[i].(frequency := ps[i].frequency + 1)]];
          return;
        }
      }
      BumpNoMatch(ps, filename);
      keywordIndex := keywordIndex[keyword := ps + [FileInfo(filename, 1)]];
    }

    /** `HashMap::getFiles`: a copy of the keyword's postings, empty for a keyword never added. */
    function GetFiles(keyword: string): (r: seq<FileInfo>)
      reads this
      ensures keyword !in keywordIndex ==> r == []
      ensures ValidIndex(keywordIndex) ==> AllPositive(r) && UniqueFiles(r)
    {
      Postings(keywordIndex, keyword)
    }

    /** `HashMap::containsKeyword`: whether the keyword has an entry; one with postings always does. */
    function ContainsKeyword(keyword: string): (b: bool)
      reads this
      ensures GetFiles(keyword) != [] ==> b
    {
      keyword in keywordIndex
    }

    /** `HashMap::getIndex`. */
    function GetIndex(): Index
      reads this
    {
      keywordIndex
    }

    /** `HashMap::setIndex`: the index is replaced wholesale; `getIndex()` then yields `newIndex`. */
    method SetIndex(newIndex: Index)
      modifies this
      ensures GetIndex() == newIndex
      ensures fileContents == old(fileContents)
    {
      keywordIndex := newIndex;
    }

    /** `HashMap::storeFileContent`: the last text stored for a file wins. */
    method StoreFileContent(filename: string, content: string)
      modifies this
      ensures fileContents == old(fileContents)[filename := content]
      ensures keywordIndex == old(keywordIndex)
      ensures HasFileContent(filename) && GetFileContent(filename) == content
    {
      fileContents := fileContents[filename := content];
    }

    /** `HashMap::getFileContent`: the stored text, "" for a file never stored. */
    function GetFileContent(filename: string): (r: string)
      reads this
      ensures !HasFileContent(filename) ==> r == ""
    {
      if filename in fileContents then fileContents[filename] else ""
    }

    /** `HashMap::hasFileContent`. */
    function HasFileContent(filename: string): bool
      reads this
    {
      filename in fileContents
    }
  }
}
