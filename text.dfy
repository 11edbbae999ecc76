/**
 * Character classes and the string operations the extractor applies to OCR text:
 * substring tests (Python's `in`), case-insensitive literal search, `strip()`,
 * `"".join(split())` and `replace(" ", "")`.
 *
 * Whitespace is the fixed ASCII set space, tab, newline, carriage return,
 * vertical tab and form feed; case-insensitivity is ASCII lower-casing.
 */
module Text {

  predicate IsSpace(c: char) {
    c == ' ' || c == '\t' || c == '\n' || c == '\r' || c == '\U{000B}' || c == '\U{000C}'
  }

  predicate IsDigit(c: char) { '0' <= c <= '9' }

  predicate IsUpper(c: char) { 'A' <= c <= 'Z' }

  predicate AllSpace(s: string) {
    forall k :: 0 <= k < |s| ==> IsSpace(s[k])
  }

  /** ASCII lower-casing, the case folding `re.IGNORECASE` applies to both sides of a comparison. */
  function Lower(c: char): char {
    if IsUpper(c) then (c as int + 32) as char else c
  }

  // ---------------------------------------------------------------------------
  // Substring tests

  /** `sub` occurs at position `i` of `text`. */
  predicate OccursAt(text: string, sub: string, i: nat) {
    i + |sub| <= |text| && text[i..i + |sub|] == sub
  }

  /** Python's `sub in text`. */
  function Contains(text: string, sub: string): (r: bool)
    ensures r <==> exists i: nat :: OccursAt(text, sub, i)
  {
    ContainsFrom(text, sub, 0)
  }

  function ContainsFrom(text: string, sub: string, from: nat): (r: bool)
    requires from <= |text|
    ensures r <==> exists i: nat :: from <= i && OccursAt(text, sub, i)
    decreases |text| - from
  {
    if from + |sub| > |text| then false
    else if OccursAt(text, sub, from) then true
    else ContainsFrom(text, sub, from + 1)
  }

  /** A word whose first character `mid` lacks does not start inside `mid`, whatever surrounds it. */
  lemma FirstCharAbsentIn(pre: string, mid: string, after: string, w: string)
    requires w != [] && w[0] !in mid
    ensures forall j :: |pre| <= j < |pre| + |mid| ==> !OccursAt(pre + mid + after, w, j)
  {
    var t := pre + mid + after;
    forall j | |pre| <= j < |pre| + |mid| ensures !OccursAt(t, w, j) {
      if j + |w| <= |t| {
        assert t[j..j + |w|][0] == t[j] == mid[j - |pre|];
      }
    }
  }

  /** A word whose first character is missing from the text does not occur in it. */
  lemma FirstCharAbsent(text: string, w: string)
    requires w != [] && w[0] !in text
    ensures !Contains(text, w)
  {
    FirstCharAbsentIn([], text, [], w);
    assert [] + text + [] == text;
  }

  /** A word does not occur where one of its characters is different. */
  lemma MismatchAt(text: string, w: string, j: nat, k: nat)
    requires k < |w| && j + k < |text| && text[j + k] != w[k]
    ensures !OccursAt(text, w, j)
  {
    if j + |w| <= |text| {
      assert text[j..j + |w|][k] == text[j + k];
    }
  }

  /** `word` occurs at position `i` of `text` when both sides are lower-cased. */
  predicate OccursIgnoringCaseAt(text: string, word: string, i: nat) {
    i + |word| <= |text| && forall k :: 0 <= k < |word| ==> Lower(text[i + k]) == Lower(word[k])
  }

  /** The same as `FirstCharAbsent`, ignoring case. */
  lemma FirstCharAbsentIgnoringCase(text: string, w: string)
    requires w != [] && forall k :: 0 <= k < |text| ==> Lower(text[k]) != Lower(w[0])
    ensures !ContainsIgnoringCase(text, w)
  {
    forall i: nat ensures !OccursIgnoringCaseAt(text, w, i) {
      if i + |w| <= |text| {
        assert Lower(text[i + 0]) != Lower(w[0]);
      }
    }
  }

  /** Whether `re.search(word, text, re.IGNORECASE)` finds the literal `word`. */
  function ContainsIgnoringCase(text: string, word: string): (r: bool)
    ensures r <==> exists i: nat :: OccursIgnoringCaseAt(text, word, i)
  {
    ContainsIgnoringCaseFrom(text, word, 0)
  }

  function ContainsIgnoringCaseFrom(text: string, word: string, from: nat): (r: bool)
    requires from <= |text|
    ensures r <==> exists i: nat :: from <= i && OccursIgnoringCaseAt(text, word, i)
    decreases |text| - from
  {
    if from + |word| > |text| then false
    else if OccursIgnoringCaseAt(text, word, from) then true
    else ContainsIgnoringCaseFrom(text, word, from + 1)
  }

  // ---------------------------------------------------------------------------
  // strip()

  /** The number of whitespace characters at the start of `s`. */
  function LeadingSpaces(s: string): (n: nat)
    ensures n <= |s| && AllSpace(s[..n])
    ensures n == |s| || !IsSpace(s[n])
  {
    if s != [] && IsSpace(s[0]) then 1 + LeadingSpaces(s[1..]) else 0
  }

  /** The number of whitespace characters at the end of `s`. */
  function TrailingSpaces(s: string): (n: nat)
    ensures n <= |s| && AllSpace(s[|s| - n..])
    ensures n == |s| || !IsSpace(s[|s| - n - 1])
  {
    if s != [] && IsSpace(s[|s| - 1]) then 1 + TrailingSpaces(s[..|s| - 1]) else 0
  }

  /** Python's `s.strip()`: the slice of `s` left after removing whitespace at both ends. */
  function Strip(s: string): (r: string)
    ensures exists i, j :: 0 <= i <= j <= |s| && r == s[i..j] && AllSpace(s[..i]) && AllSpace(s[j..])
    ensures r == [] || (!IsSpace(r[0]) && !IsSpace(r[|r| - 1]))
  {
    var a := LeadingSpaces(s);
    if a == |s| then
      assert s[a..] == [];
      s[a..a]
    else
      var b := |s| - TrailingSpaces(s);
      assert a < b;
      s[a..b]
  }
  /** A text with no whitespace at either end is its own strip; in particular `Strip` is idempotent. */
  lemma StripUnchanged(s: string)
    requires s == [] || (!IsSpace(s[0]) && !IsSpace(s[|s| - 1]))
    ensures Strip(s) == s
  {
    if s != [] {
      assert LeadingSpaces(s) == 0;
      assert TrailingSpaces(s) == 0;
    }
  }

  /** A text of whitespace only strips to the empty string. */
  lemma StripOfBlank(s: string)
    requires AllSpace(s)
    ensures Strip(s) == []
  {
  }


  // ---------------------------------------------------------------------------
  // "".join(s.split())

  /** The characters of `s` that are not whitespace, in order. */
  function NonSpace(s: string): (r: string)
    ensures forall k :: 0 <= k < |r| ==> !IsSpace(r[k])
  {
    if s == [] then []
    else
      (if IsSpace(s[0]) then [] else [s[0]]) + NonSpace(s[1..])
  }

  /** `NonSpace` keeps every non-whitespace character of `s`, as often as it occurs there. */
  lemma {:induction false} NonSpaceCount(s: string)
    ensures forall c :: multiset(NonSpace(s))[c] == if IsSpace(c) then 0 else multiset(s)[c]
  {
    if s != [] {
      NonSpaceCount(s[1..]);
      assert s == [s[0]] + s[1..];
    }
  }

  lemma {:induction false} NonSpaceAppend(x: string, y: string)
    ensures NonSpace(x + y) == NonSpace(x) + NonSpace(y)
  {
    if x != [] {
      assert (x + y)[0] == x[0] && (x + y)[1..] == x[1..] + y;
      NonSpaceAppend(x[1..], y);
      var h: string := if IsSpace(x[0]) then [] else [x[0]];
      assert NonSpace(x + y) == h + NonSpace(x[1..] + y);
      assert NonSpace(x) == h + NonSpace(x[1..]);
    } else {
      assert x + y == y;
    }
  }

  lemma {:induction false} NonSpaceOfSpaces(s: string)
    requires AllSpace(s)
    ensures NonSpace(s) == []
  {
    if s != [] {
      NonSpaceOfSpaces(s[1..]);
    }
  }

  lemma {:induction false} NonSpaceOfWord(s: string)
    requires forall k :: 0 <= k < |s| ==> !IsSpace(s[k])
    ensures NonSpace(s) == s
  {
    if s != [] {
      NonSpaceOfWord(s[1..]);
      assert s == [s[0]] + s[1..];
    }
  }

  /** The length of the run of non-whitespace characters at the start of `s`. */
  function WordLength(s: string): (n: nat)
    ensures n <= |s| && forall k :: 0 <= k < n ==> !IsSpace(s[k])
    ensures n == |s| || IsSpace(s[n])
  {
    if s != [] && !IsSpace(s[0]) then 1 + WordLength(s[1..]) else 0
  }

  /** Python's `s.split()` with no separator: the maximal runs of non-whitespace characters. */
  function Split(s: string): (words: seq<string>)
    ensures forall w :: w in words ==> w != [] && forall k :: 0 <= k < |w| ==> !IsSpace(w[k])
    decreases |s|
  {
    var a := LeadingSpaces(s);
    if a == |s| then []
    else
      var n := WordLength(s[a..]);
      [s[a..a + n]] + Split(s[a + n..])
  }

  /** Python's `"".join(words)`. */
  function Concat(words: seq<string>): string {
    if words == [] then [] else words[0] + Concat(words[1..])
  }

  /** Joining the words of `s` with nothing in between deletes every whitespace character of `s`. */
  lemma {:induction false} ConcatSplit(s: string)
    ensures Concat(Split(s)) == NonSpace(s)
    decreases |s|
  {
    var a := LeadingSpaces(s);
    if a == |s| {
      assert s == s[..a];
      NonSpaceOfSpaces(s);
    } else {
      var n := WordLength(s[a..]);
      var prefix, word, rest := s[..a], s[a..a + n], s[a + n..];
      assert Split(s) == [word] + Split(rest);
      assert ([word] + Split(rest))[1..] == Split(rest);
      ConcatSplit(rest);
      assert Concat(Split(s)) == word + NonSpace(rest);
      NonSpaceAfterSpaces(s, a, n);
    }
  }

  lemma NonSpaceAfterSpaces(s: string, a: nat, n: nat)
    requires a + n <= |s| && AllSpace(s[..a])
    requires forall k :: 0 <= k < n ==> !IsSpace(s[a..][k])
    ensures NonSpace(s) == s[a..a + n] + NonSpace(s[a + n..])
  {
    var prefix, word, rest := s[..a], s[a..a + n], s[a + n..];
    SliceThree(s, a, n);
    NonSpaceOfSpacesThenWord(prefix, word, rest);
  }

  /** A text is the concatenation of three consecutive slices of it; the middle one starts `s[a..]`. */
  lemma SliceThree(s: string, a: nat, n: nat)
    requires a + n <= |s|
    ensures s == s[..a] + (s[a..a + n] + s[a + n..])
    ensures forall k :: 0 <= k < n ==> s[a..a + n][k] == s[a..][k]
  {
  }

  /** Spaces, then a word, then anything: removing whitespace leaves the word and the rest's characters. */
  lemma NonSpaceOfSpacesThenWord(x: string, w: string, y: string)
    requires AllSpace(x) && forall k :: 0 <= k < |w| ==> !IsSpace(w[k])
    ensures NonSpace(x + (w + y)) == w + NonSpace(y)
  {
    NonSpaceOfSpaces(x);
    NonSpaceOfWord(w);
    NonSpaceAppend(x, w + y);
    NonSpaceAppend(w, y);
    assert [] + (w + NonSpace(y)) == w + NonSpace(y);
  }

  /** `"".join(s.split())`, the normalisation of an account number. */
  function JoinWords(s: string): (r: string)
    ensures r == NonSpace(s)
  {
    ConcatSplit(s);
    Concat(Split(s))
  }

  // ---------------------------------------------------------------------------
  // replace()

  /** Python's `s.replace(target, replacement)` for a one-character `target`. */
  function Replace(s: string, target: char, replacement: string): string {
    if s == [] then []
    else
      (if s[0] == target then replacement else [s[0]]) + Replace(s[1..], target, replacement)
  }

  /** Every occurrence of `target` is replaced and every other character is kept, as often as it occurs. */
  lemma {:induction false} ReplaceCount(s: string, target: char, replacement: string)
    ensures forall c :: c !in replacement ==>
      multiset(Replace(s, target, replacement))[c] == if c == target then 0 else multiset(s)[c]
  {
    if s != [] {
      ReplaceCount(s[1..], target, replacement);
      assert s == [s[0]] + s[1..];
    }
  }

  /** Replacing a character the text does not hold changes nothing. */
  lemma {:induction false} ReplaceAbsent(s: string, target: char, replacement: string)
    requires target !in s
    ensures Replace(s, target, replacement) == s
  {
    if s != [] {
      assert target !in s[1..];
      ReplaceAbsent(s[1..], target, replacement);
      assert s == [s[0]] + s[1..];
    }
  }

  /** Replacement works character by character, so it distributes over concatenation. */
  lemma {:induction false} ReplaceAppend(a: string, b: string, target: char, replacement: string)
    ensures Replace(a + b, target, replacement) == Replace(a, target, replacement) + Replace(b, target, replacement)
  {
    if a != [] {
      assert (a + b)[0] == a[0] && (a + b)[1..] == a[1..] + b;
      ReplaceAppend(a[1..], b, target, replacement);
    } else {
      assert a + b == b;
    }
  }

}
