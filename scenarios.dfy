/** Concrete searches that show case-insensitive, whole-word matching.
    Each lemma takes its text and keyword as parameters equal to the literals,
    rather than the literals themselves, so that the verifier does not unfold
    the scan over a constant string on its own and the proofs stay small. */
module Scenarios {
  import opened Chars
  import opened Matching
  import opened Highlight

  /** No match starts in [from, to) when no character there folds to the
      keyword's first letter. */
  lemma NoMatchInGap(t: string, k: string, from: nat, to: nat)
    requires |k| > 0 && from <= to <= |t|
    requires forall c :: c in t[from..to] ==> Fold(c) != Fold(k[0])
    ensures forall i :: from <= i < to ==> !MatchAt(t, k, i)
  {
    forall i | from <= i < to ensures !MatchAt(t, k, i) {
      if i + |k| <= |t| {
        assert t[from..to][i - from] == t[i];
        assert t[i..i + |k|][0] == t[i];
      }
    }
  }

  /** The pieces of "Hello hello HELLO". */
  lemma HelloPieces(t: string)
    requires t == "Hello hello HELLO"
    ensures t[0..5] == "Hello" && t[6..11] == "hello" && t[12..] == "HELLO"
    ensures t[5] == ' ' && t[11] == ' '
  {
    assert t[..5] == "Hello";
    assert t[6..][..5] == "hello";
  }

  /** Each of the three words matches "hello"; the spaces between them do not. */
  lemma HelloMatches(t: string, k: string)
    requires t == "Hello hello HELLO" && k == "hello"
    ensures MatchAt(t, k, 0) && MatchAt(t, k, 6) && MatchAt(t, k, 12)
    ensures !MatchAt(t, k, 5) && !MatchAt(t, k, 11)
  {
    HelloPieces(t);
    assert t[12..17] == t[12..];
    assert EqualsIgnoreCase(t[0..5], k) && EqualsIgnoreCase(t[6..11], k) && EqualsIgnoreCase(t[12..17], k);
  }

  /** "hello" is found three times in "Hello hello HELLO", whatever the case. */
  lemma CaseInsensitiveCount(t: string, k: string)
    requires t == "Hello hello HELLO" && k == "hello"
    ensures Count(t, k) == 3
  {
    HelloMatches(t, k);
    assert Scan(t, k, 12) == [12];
    assert Scan(t, k, 6) == [6, 12];
    assert Scan(t, k, 0) == [0, 6, 12];
  }

  /** The pieces of "cat category cats". */
  lemma CatPieces(t: string)
    requires t == "cat category cats"
    ensures t[0..3] == "cat" && t[3..4] == " " && t[4..13] == "category " && t[13..] == "cats"
  {
    assert t[..3] == "cat";
    assert t[4..][..9] == "category ";
  }

  /** Away from the three "c"s no match can start. */
  lemma CatGapsClear(t: string, k: string)
    requires t == "cat category cats" && k == "cat"
    ensures forall i :: 3 <= i < 4 || 5 <= i < 13 || 14 <= i < 17 ==> !MatchAt(t, k, i)
  {
    CatPieces(t);
    assert t[4..13][1..] == t[5..13] && t[13..][1..] == t[14..];
    NoMatchInGap(t, k, 3, 4);
    NoMatchInGap(t, k, 5, 13);
    NoMatchInGap(t, k, 14, 17);
  }

  /** The "cat" that starts "category" or "cats" is followed by a word
      character, so it is no whole word. */
  lemma CatInsideWords(t: string, k: string)
    requires t == "cat category cats" && k == "cat"
    ensures MatchAt(t, k, 0) && !MatchAt(t, k, 4) && !MatchAt(t, k, 13)
  {
    CatPieces(t);
    assert t[7] == t[4..13][3] && t[16] == t[13..][3];
    assert t[3] == t[3..4][0];
  }

  /** In "cat category cats" the scan finds only the first "cat". */
  lemma CatScan(t: string, k: string)
    requires t == "cat category cats" && k == "cat"
    ensures Scan(t, k, 0) == [0]
  {
    CatGapsClear(t, k);
    CatInsideWords(t, k);
    ScanSkip(t, k, 3, 17);
  }

  /** "cat" is found once in "cat category cats". */
  lemma WholeWordCount(t: string, k: string)
    requires t == "cat category cats" && k == "cat"
    ensures Count(t, k) == 1
  {
    CatScan(t, k);
  }

  /** The quick-brown-fox text up to and including the first fox. */
  lemma FoxHead(t: string)
    requires t == "The quick brown Fox jumps over the fox"
    ensures t[0..16] == "The quick brown " && t[16..19] == "Fox"
  {
    assert t[..16] == "The quick brown ";
    assert t[16..][..3] == "Fox";
  }

  /** The quick-brown-fox text after the first fox. */
  lemma FoxTail(t: string)
    requires t == "The quick brown Fox jumps over the fox"
    ensures t[19..35] == " jumps over the " && t[35..] == "fox"
  {
    assert t[19..][..16] == " jumps over the ";
  }

  /** The pieces of the quick-brown-fox text around and between the two foxes. */
  lemma FoxPieces(t: string)
    requires t == "The quick brown Fox jumps over the fox"
    ensures t[0..16] == "The quick brown " && t[16..19] == "Fox"
    ensures t[19..35] == " jumps over the " && t[35..] == "fox"
  {
    FoxHead(t);
    FoxTail(t);
  }

  /** Neither gap holds an "f" or an "F". */
  lemma FoxGapsClear(t: string, k: string)
    requires t == "The quick brown Fox jumps over the fox" && k == "fox"
    ensures forall i :: 0 <= i < 16 ==> !MatchAt(t, k, i)
    ensures forall i :: 19 <= i < 35 ==> !MatchAt(t, k, i)
  {
    FoxPieces(t);
    NoMatchInGap(t, k, 0, 16);
    NoMatchInGap(t, k, 19, 35);
  }

  /** Both foxes are whole words. */
  lemma FoxesMatch(t: string, k: string)
    requires t == "The quick brown Fox jumps over the fox" && k == "fox"
    ensures MatchAt(t, k, 16) && MatchAt(t, k, 35)
  {
    FoxPieces(t);
    assert t[15] == t[0..16][15] && t[19] == t[19..35][0] && t[34] == t[19..35][15];
    assert t[35..38] == t[35..];
  }

  /** The scan reports the two foxes, in order. */
  lemma FoxScan(t: string, k: string)
    requires t == "The quick brown Fox jumps over the fox" && k == "fox"
    ensures Scan(t, k, 0) == [16, 35]
  {
    FoxGapsClear(t, k);
    FoxesMatch(t, k);
    ScanSkip(t, k, 0, 16);
    ScanSkip(t, k, 19, 35);
    assert Scan(t, k, 35) == [35];
  }

  /** The quick-brown-fox count: "fox" is found twice. */
  lemma FoxCount(t: string, k: string)
    requires t == "The quick brown Fox jumps over the fox" && k == "fox"
    ensures Count(t, k) == 2
  {
    FoxScan(t, k);
  }

  /** Wrapping one position of a text. */
  lemma WrapOne(t: string, b: nat, n: nat, from: nat)
    requires from <= b && b + n <= |t|
    ensures Wrap(t, [b], n, from) == t[from..b] + Open + t[b..b + n] + Close + t[b + n..]
  {
    assert [b][1..] == [];
    assert Wrap(t, [], n, b + n) == t[b + n..];
  }

  /** Wrapping two positions of a text. */
  lemma WrapTwo(t: string, a: nat, b: nat, n: nat)
    requires a + n <= b && b + n <= |t|
    ensures Wrap(t, [a, b], n, 0)
      == t[0..a] + Open + t[a..a + n] + Close + (t[a + n..b] + Open + t[b..b + n] + Close + t[b + n..])
  {
    assert [a, b][1..] == [b];
    WrapOne(t, b, n, a + n);
  }

  /** The quick-brown-fox highlight: both "Fox" and "fox" are wrapped, each
      keeping its own casing, and the rest is copied through. */
  lemma FoxHighlight(t: string, k: string)
    requires t == "The quick brown Fox jumps over the fox" && k == "fox"
    ensures HighlightKeywords(t, k)
      == "The quick brown " + Open + "Fox" + Close + (" jumps over the " + Open + "fox" + Close)
  {
    FoxScan(t, k);
    FoxPieces(t);
    SubstituteWrapsScan(t, k, 0);
    WrapTwo(t, 16, 35, 3);
    assert t[35..38] == t[35..];
    assert t[38..] == [];
  }
}
