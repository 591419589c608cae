/** The pattern `\b<keyword>\b` with `re.IGNORECASE`, as both `re.findall`
    (gg/main.py:121) and `re.sub` (gg/main.py:14) search it, for a keyword made
    only of word characters, so that the pattern is the keyword taken literally. */
module Matching {
  import opened Chars

  /** The keywords for which the interpolated pattern is a literal word:
      non-empty and made only of `\w` characters. */
  predicate ValidKeyword(kw: string) {
    |kw| > 0 && AllWordChars(kw)
  }

  /** Position `i` holds a word character (false outside the string). */
  predicate WordAt(s: string, i: int) {
    0 <= i < |s| && IsWordChar(s[i])
  }

  /** `\b` at position `i`: the characters on the two sides of `i` differ in
      being word characters, the string edges counting as non-word. */
  predicate WordBoundary(s: string, i: int) {
    WordAt(s, i - 1) != WordAt(s, i)
  }

  /** The pattern matches `text` at position `i`: a boundary, the keyword up to
      case, a boundary. */
  predicate MatchAt(text: string, kw: string, i: int) {
    0 <= i && i + |kw| <= |text|
    && WordBoundary(text, i)
    && EqualsIgnoreCase(text[i..i + |kw|], kw)
    && WordBoundary(text, i + |kw|)
  }

  /** Whole-word reading of a match: the window equals the keyword up to case
      and sits between string edges or non-word characters, so that "cat" is
      found in "a cat." but not inside "category" or "bobcat". */
  lemma MatchAtIsWholeWord(text: string, kw: string, i: int)
    requires ValidKeyword(kw)
    ensures MatchAt(text, kw, i) <==>
      0 <= i && i + |kw| <= |text|
      && EqualsIgnoreCase(text[i..i + |kw|], kw)
      && (i == 0 || !IsWordChar(text[i - 1]))
      && (i + |kw| == |text| || !IsWordChar(text[i + |kw|]))
  {
    if 0 <= i && i + |kw| <= |text| && EqualsIgnoreCase(text[i..i + |kw|], kw) {
      var w := text[i..i + |kw|];
      IgnoreCaseKeepsWordChars(w, kw);
      assert w[0] == text[i];
      assert w[|kw| - 1] == text[i + |kw| - 1];
    }
  }

  /** A match covers only word characters. */
  lemma MatchedCharsAreWordChars(text: string, kw: string, i: int, j: int)
    requires ValidKeyword(kw) && MatchAt(text, kw, i) && i <= j < i + |kw|
    ensures IsWordChar(text[j])
  {
    var w := text[i..i + |kw|];
    IgnoreCaseKeepsWordChars(w, kw);
    assert w[j - i] == text[j];
  }

  /** Two matches of a word keyword never overlap: a later match must start
      after a non-word character, and every character of an earlier match is a
      word character. */
  lemma MatchesDoNotOverlap(text: string, kw: string, i: int, j: int)
    requires ValidKeyword(kw) && MatchAt(text, kw, i) && MatchAt(text, kw, j) && i < j
    ensures i + |kw| <= j
  {
    if j < i + |kw| {
      MatchedCharsAreWordChars(text, kw, i, j - 1);
      MatchedCharsAreWordChars(text, kw, j, j);
    }
  }

  /** The positions in `ps` are increasing and at least `n` apart. */
  predicate Spaced(ps: seq<nat>, n: nat) {
    forall i, j :: 0 <= i < j < |ps| ==> ps[i] + n <= ps[j]
  }

  /** The regex engine's search from `pos`: try each position left to right,
      take the first match, and resume right after it (non-overlapping). The
      result is the list of match start positions. */
  function Scan(text: string, kw: string, pos: nat): (ps: seq<nat>)
    requires |kw| > 0 && pos <= |text|
    ensures forall k :: 0 <= k < |ps| ==> pos <= ps[k] && ps[k] + |kw| <= |text|
    ensures Spaced(ps, |kw|)
    decreases |text| - pos
  {
    if pos == |text| then []
    else if MatchAt(text, kw, pos) then [pos] + Scan(text, kw, pos + |kw|)
    else Scan(text, kw, pos + 1)
  }

  /** Every position the scan reports is a match. */
  lemma {:induction false} ScanFindsMatches(text: string, kw: string, pos: nat)
    requires |kw| > 0 && pos <= |text|
    ensures forall q :: q in Scan(text, kw, pos) ==> MatchAt(text, kw, q)
    decreases |text| - pos
  {
    if pos < |text| {
      if MatchAt(text, kw, pos) {
        ScanFindsMatches(text, kw, pos + |kw|);
        assert Scan(text, kw, pos) == [pos] + Scan(text, kw, pos + |kw|);
      } else {
        ScanFindsMatches(text, kw, pos + 1);
      }
    }
  }

  /** Reference count of the whole-word occurrences at or after `pos`: every
      position is tried on its own, with no skipping. */
  function Occurrences(text: string, kw: string, pos: nat): nat
    requires pos <= |text|
    decreases |text| - pos
  {
    if pos == |text| then 0
    else (if MatchAt(text, kw, pos) then 1 else 0) + Occurrences(text, kw, pos + 1)
  }

  /** The scan misses nothing: a position is reported exactly when the pattern
      matches there. Skipping past a match loses no other match because
      matches cannot overlap. */
  lemma {:induction false} ScanIsExact(text: string, kw: string, pos: nat)
    requires ValidKeyword(kw) && pos <= |text|
    ensures forall q: int :: q in Scan(text, kw, pos) <==> pos <= q && MatchAt(text, kw, q)
    decreases |text| - pos
  {
    if pos == |text| {
    } else if MatchAt(text, kw, pos) {
      ScanIsExact(text, kw, pos + |kw|);
      forall q: int | pos < q && MatchAt(text, kw, q) ensures pos + |kw| <= q {
        MatchesDoNotOverlap(text, kw, pos, q);
      }
    } else {
      ScanIsExact(text, kw, pos + 1);
    }
  }

  /** No match starts in [from, to): the reference count is unchanged. */
  lemma {:induction false} OccurrencesSkip(text: string, kw: string, from: nat, to: nat)
    requires from <= to <= |text|
    requires forall q :: from <= q < to ==> !MatchAt(text, kw, q)
    ensures Occurrences(text, kw, from) == Occurrences(text, kw, to)
    decreases |text| - from
  {
    if from < to {
      OccurrencesSkip(text, kw, from + 1, to);
    }
  }

  /** No match starts in [from, to): the scan passes over the stretch. */
  lemma {:induction false} ScanSkip(text: string, kw: string, from: nat, to: nat)
    requires |kw| > 0 && from <= to <= |text|
    requires forall q :: from <= q < to ==> !MatchAt(text, kw, q)
    ensures Scan(text, kw, from) == Scan(text, kw, to)
    decreases |text| - from
  {
    if from < to {
      ScanSkip(text, kw, from + 1, to);
    }
  }

  /** The scan reports as many matches as there are whole-word occurrences. */
  lemma {:induction false} ScanCountsOccurrences(text: string, kw: string, pos: nat)
    requires ValidKeyword(kw) && pos <= |text|
    ensures |Scan(text, kw, pos)| == Occurrences(text, kw, pos)
    decreases |text| - pos
  {
    if pos == |text| {
    } else if MatchAt(text, kw, pos) {
      ScanCountsOccurrences(text, kw, pos + |kw|);
      forall q | pos + 1 <= q < pos + |kw| ensures !MatchAt(text, kw, q) {
        if MatchAt(text, kw, q) {
          MatchesDoNotOverlap(text, kw, pos, q);
        }
      }
      OccurrencesSkip(text, kw, pos + 1, pos + |kw|);
    } else {
      ScanCountsOccurrences(text, kw, pos + 1);
    }
  }

  /** `re.findall(rf'\b{kw}\b', text, re.IGNORECASE)` (gg/main.py:121): the
      matched substrings, in order, each with the casing it has in `text`. */
  function FindAll(text: string, kw: string): (found: seq<string>)
    requires ValidKeyword(kw)
    ensures |found| == |Scan(text, kw, 0)|
    ensures forall k :: 0 <= k < |found| ==>
      found[k] == text[Scan(text, kw, 0)[k]..Scan(text, kw, 0)[k] + |kw|]
  {
    var ps := Scan(text, kw, 0);
    seq(|ps|, k requires 0 <= k < |ps| => text[ps[k]..ps[k] + |kw|])
  }

  /** Each substring `re.findall` returns is the keyword up to case, taken
      from a whole-word match. */
  lemma FindAllMatchesKeyword(text: string, kw: string)
    requires ValidKeyword(kw)
    ensures forall k :: 0 <= k < |FindAll(text, kw)| ==>
      MatchAt(text, kw, Scan(text, kw, 0)[k]) && EqualsIgnoreCase(FindAll(text, kw)[k], kw)
  {
    var ps := Scan(text, kw, 0);
    ScanFindsMatches(text, kw, 0);
    forall k | 0 <= k < |ps| ensures MatchAt(text, kw, ps[k]) {
      assert ps[k] in ps;
    }
  }

  /** `len(matches)` (gg/main.py:121-123): the number of whole-word,
      case-insensitive occurrences of the keyword. */
  function Count(text: string, kw: string): (n: nat)
    requires ValidKeyword(kw)
    ensures n == Occurrences(text, kw, 0)
    ensures n == 0 <==> forall q :: !MatchAt(text, kw, q)
  {
    ScanCountsOccurrences(text, kw, 0);
    ScanIsExact(text, kw, 0);
    var ps := Scan(text, kw, 0);
    assert ps != [] ==> ps[0] in ps;
    |FindAll(text, kw)|
  }
}
