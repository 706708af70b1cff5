/**
 * Character classes and string primitives of the C++ standard library as the
 * search engine uses them, over ASCII in the "C" locale: `isspace`, `ispunct`,
 * `isdigit`, `tolower`, `std::stringstream >> word`, `std::getline(ss, line, '\n')`,
 * `std::string::find` and the `find_first_not_of`/`find_last_not_of` trimming idiom.
 */
module Text {

  /** `std::isspace` in the "C" locale: space, \t, \n, \v, \f, \r. */
  predicate IsSpace(c: char) {
    c == ' ' || c == '\t' || c == '\n' || c as int == 11 || c as int == 12 || c == '\r'
  }

  /** The characters named in the trimming idiom `find_first_not_of(" \t\n\r")`. */
  predicate IsTrimSpace(c: char) {
    c == ' ' || c == '\t' || c == '\n' || c == '\r'
  }

  /** `std::ispunct` in the "C" locale: the printable ASCII characters that are neither letters, digits nor space. */
  predicate IsPunct(c: char) {
    ('!' <= c <= '/') || (':' <= c <= '@') || ('[' <= c <= '`') || ('{' <= c <= '~')
  }

  predicate IsDigit(c: char) {
    '0' <= c <= '9'
  }

  predicate IsUpper(c: char) {
    'A' <= c <= 'Z'
  }

  /** `std::tolower` in the "C" locale. */
  function LowerChar(c: char): (r: char)
    ensures !IsUpper(r)
    ensures IsUpper(c) || r == c
    ensures IsPunct(r) <==> IsPunct(c)
    ensures IsSpace(r) <==> IsSpace(c)
  {
    if IsUpper(c) then (c as int + 32) as char else c
  }

  /** No character of `s` is white space. */
  predicate NoSpace(s: string) {
    forall i :: 0 <= i < |s| ==> !IsSpace(s[i])
  }

  /** `s` has no white space of the trimming idiom at either end. */
  predicate Trimmed(s: string) {
    s != [] ==> !IsTrimSpace(s[0]) && !IsTrimSpace(s[|s| - 1])
  }

  /** The longest prefix of `s` without white space. */
  function WordPrefix(s: string): (w: string)
    ensures |w| <= |s| && w == s[..|w|]
    ensures NoSpace(w)
    ensures |w| < |s| ==> IsSpace(s[|w|])
  {
    if s == [] || IsSpace(s[0]) then [] else [s[0]] + WordPrefix(s[1..])
  }

  /**
   * The words `while (ss >> word)` reads from a `std::stringstream`: the maximal
   * runs of non-space characters, in order.
   */
  function Words(s: string): (ws: seq<string>)
    ensures forall i :: 0 <= i < |ws| ==> ws[i] != [] && NoSpace(ws[i])
    decreases |s|
  {
    if s == [] then []
    else if IsSpace(s[0]) then Words(s[1..])
    else
      var w := WordPrefix(s);
      [w] + Words(s[|w|..])
  }

  /**
   * The lines `while (std::getline(ss, line, '\n'))` reads: the pieces between
   * newlines; a final newline does not start another, empty, line.
   */
  function Lines(s: string): (ls: seq<string>)
    ensures forall i :: 0 <= i < |ls| ==> '\n' !in ls[i]
    decreases |s|
  {
    if s == [] then []
    else
      var l := LinePrefix(s);
      if |l| == |s| then [l] else [l] + Lines(s[|l| + 1..])
  }

  /** The longest prefix of `s` without a newline. */
  function LinePrefix(s: string): (l: string)
    ensures |l| <= |s| && l == s[..|l|]
    ensures '\n' !in l
    ensures |l| < |s| ==> s[|l|] == '\n'
  {
    if s == [] || s[0] == '\n' then [] else [s[0]] + LinePrefix(s[1..])
  }

  /** `std::transform(s.begin(), s.end(), s.begin(), ::tolower)`. */
  function ToLowerCase(s: string): (r: string)
    ensures |r| == |s|
    ensures forall i :: 0 <= i < |s| ==> r[i] == LowerChar(s[i])
  {
    seq(|s|, i requires 0 <= i < |s| => LowerChar(s[i]))
  }

  /** The piece of `s` from `i` of length `n`, with `Contains` as its user. */
  function Piece(s: string, i: nat, n: nat): string
    requires i + n <= |s|
  {
    s[i..i + n]
  }

  /** `s.find(needle) != std::string::npos`: `needle` occurs in `s` as a contiguous piece. */
  predicate Contains(s: string, needle: string) {
    exists i: nat :: i + |needle| <= |s| && Piece(s, i, |needle|) == needle
  }

  /**
   * The first position at or after `from` whose string contains `needle`, or -1:
   * the index loop with `find(...) != npos` and `break`.
   */
  function FirstContaining(hay: seq<string>, needle: string, from: nat): (p: int)
    requires from <= |hay|
    ensures p == -1 || from <= p < |hay|
    ensures p == -1 ==> forall j :: from <= j < |hay| ==> !Contains(hay[j], needle)
    ensures p >= 0 ==> Contains(hay[p], needle) && forall j :: from <= j < p ==> !Contains(hay[j], needle)
    decreases |hay| - from
  {
    if from == |hay| then -1
    else if Contains(hay[from], needle) then from
    else FirstContaining(hay, needle, from + 1)
  }

  /** `s.erase(0, s.find_first_not_of(" \t\n\r"))`; on a blank string this clears it. */
  function TrimLeft(s: string): (r: string)
    ensures |r| <= |s| && r == s[|s| - |r|..]
    ensures r != [] ==> !IsTrimSpace(r[0])
    ensures r == [] ==> s == [] || IsTrimSpace(s[|s| - 1])
    ensures forall i :: 0 <= i < |s| - |r| ==> IsTrimSpace(s[i])
  {
    if s != [] && IsTrimSpace(s[0]) then
      var r := TrimLeft(s[1..]);
      assert forall i :: 1 <= i < |s| - |r| ==> s[i] == s[1..][i - 1];
      r
    else s
  }

  /** `s.erase(s.find_last_not_of(" \t\n\r") + 1)`; on a blank string this clears it. */
  function TrimRight(s: string): (r: string)
    ensures |r| <= |s| && r == s[..|r|]
    ensures r != [] ==> !IsTrimSpace(r[|r| - 1])
    ensures s != [] && !IsTrimSpace(s[|s| - 1]) ==> r == s
    ensures forall i :: |r| <= i < |s| ==> IsTrimSpace(s[i])
  {
    if s != [] && IsTrimSpace(s[|s| - 1]) then
      var r := TrimRight(s[..|s| - 1]);
      assert forall i :: |r| <= i < |s| - 1 ==> s[i] == s[..|s| - 1][i];
      r
    else s
  }

  /** Where `TrimLeft` starts: the number of leading " \t\n\r" characters. */
  function TrimStart(s: string): (a: nat)
    ensures a <= |s|
  {
    |s| - |TrimLeft(s)|
  }

  /** Both erasures of the trimming idiom: `s` without leading and trailing " \t\n\r". */
  function Trim(s: string): (r: string)
    ensures Trimmed(r)
    ensures TrimStart(s) + |r| <= |s| && r == s[TrimStart(s)..TrimStart(s) + |r|]
    ensures s != [] && !IsTrimSpace(s[|s| - 1]) ==> r != [] && TrimStart(s) + |r| == |s|
    ensures forall i :: 0 <= i < TrimStart(s) ==> IsTrimSpace(s[i])
    ensures forall i :: TrimStart(s) + |r| <= i < |s| ==> IsTrimSpace(s[i])
  {
    var l := TrimLeft(s);
    var r := TrimRight(l);
    TrimParts(s, l, r);
    r
  }

  lemma PrefixOfSuffix(s: string, a: nat, l: string, r: string)
    requires a <= |s| && l == s[a..] && |r| <= |l| && r == l[..|r|]
    ensures a + |r| <= |s| && r == s[a..a + |r|]
  {
  }

  /** The erasure at the back keeps what the erasure at the front left in place. */
  lemma TrimParts(s: string, l: string, r: string)
    requires |l| <= |s| && l == s[|s| - |l|..]
    requires l != [] ==> !IsTrimSpace(l[0])
    requires l == [] ==> s == [] || IsTrimSpace(s[|s| - 1])
    requires |r| <= |l| && r == l[..|r|]
    requires r != [] ==> !IsTrimSpace(r[|r| - 1])
    requires l != [] && !IsTrimSpace(l[|l| - 1]) ==> r == l
    requires forall i :: |r| <= i < |l| ==> IsTrimSpace(l[i])
    ensures Trimmed(r)
    ensures |s| - |l| + |r| <= |s| && r == s[|s| - |l|..|s| - |l| + |r|]
    ensures s != [] && !IsTrimSpace(s[|s| - 1]) ==> r != [] && |s| - |l| + |r| == |s|
    ensures forall i :: |s| - |l| + |r| <= i < |s| ==> IsTrimSpace(s[i])
  {
    var a := |s| - |l|;
    PrefixOfSuffix(s, a, l, r);
    if r != [] {
      assert r[0] == l[0];
    }
    if s != [] && !IsTrimSpace(s[|s| - 1]) {
      assert l != [] && l[|l| - 1] == s[|s| - 1];
    }
    forall i | a + |r| <= i < |s| ensures IsTrimSpace(s[i]) {
      assert s[i] == l[i - a];
    }
  }
}
