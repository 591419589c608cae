/** `highlight_keywords` (gg/main.py:13-15): `re.sub` with the pattern
    `(\b<keyword>\b)`, the replacement `<mark>\1</mark>` and `re.IGNORECASE`. */
module Highlight {
  import opened Chars
  import opened Matching

  const Open: string := "<mark>"
  const Close: string := "</mark>"

  /** `re.sub` from `pos`: at each match the matched text (group 1, with its
      own casing) is copied between the two tags and the scan resumes after
      it; every other character is copied through. */
  function Substitute(text: string, kw: string, pos: nat): string
    requires |kw| > 0 && pos <= |text|
    decreases |text| - pos
  {
    if pos == |text| then []
    else if MatchAt(text, kw, pos) then
      Open + text[pos..pos + |kw|] + Close + Substitute(text, kw, pos + |kw|)
    else [text[pos]] + Substitute(text, kw, pos + 1)
  }

  /** `highlight_keywords(text, keyword)`; each match adds 6 + 7 characters. */
  function HighlightKeywords(text: string, kw: string): (marked: string)
    requires ValidKeyword(kw)
    ensures |marked| == |text| + (|Open| + |Close|) * Count(text, kw)
  {
    SubstituteLength(text, kw, 0);
    Substitute(text, kw, 0)
  }

  /** Each wrapped match adds the two tags and nothing else. */
  lemma {:induction false} SubstituteLength(text: string, kw: string, pos: nat)
    requires |kw| > 0 && pos <= |text|
    ensures |Substitute(text, kw, pos)| == |text| - pos + 13 * |Scan(text, kw, pos)|
    decreases |text| - pos
  {
    if pos < |text| {
      if MatchAt(text, kw, pos) {
        var next := pos + |kw|;
        SubstituteLength(text, kw, next);
        assert Scan(text, kw, pos) == [pos] + Scan(text, kw, next);
        assert |Substitute(text, kw, pos)| == |Open| + |kw| + |Close| + |Substitute(text, kw, next)|;
      } else {
        SubstituteLength(text, kw, pos + 1);
        assert Scan(text, kw, pos) == Scan(text, kw, pos + 1);
        assert |Substitute(text, kw, pos)| == 1 + |Substitute(text, kw, pos + 1)|;
      }
    }
  }

  /** Reference form of the highlighted text: `text` from `from` on, with the
      `n` characters at each position of `ps` wrapped in the two tags. */
  function Wrap(text: string, ps: seq<nat>, n: nat, from: nat): string
    requires from <= |text| && Spaced(ps, n)
    requires forall k :: 0 <= k < |ps| ==> from <= ps[k] && ps[k] + n <= |text|
    decreases |ps|
  {
    if ps == [] then text[from..]
    else text[from..ps[0]] + Open + text[ps[0]..ps[0] + n] + Close + Wrap(text, ps[1..], n, ps[0] + n)
  }

  /** Copying one more plain character in front of a wrapped text. */
  lemma WrapStep(text: string, ps: seq<nat>, n: nat, from: nat)
    requires from < |text| && Spaced(ps, n)
    requires forall k :: 0 <= k < |ps| ==> from < ps[k] && ps[k] + n <= |text|
    ensures Wrap(text, ps, n, from) == [text[from]] + Wrap(text, ps, n, from + 1)
  {
    if ps == [] {
      assert text[from..] == [text[from]] + text[from + 1..];
    } else {
      assert text[from..ps[0]] == [text[from]] + text[from + 1..ps[0]];
    }
  }

  /** Wrapping the first position, which is where the scan stands. */
  lemma WrapHead(text: string, ps: seq<nat>, n: nat, from: nat)
    requires from <= |text| && Spaced(ps, n) && |ps| > 0 && ps[0] == from
    requires forall k :: 0 <= k < |ps| ==> from <= ps[k] && ps[k] + n <= |text|
    ensures Wrap(text, ps, n, from) == Open + text[from..from + n] + Close + Wrap(text, ps[1..], n, from + n)
  {
    assert text[from..from] == [];
  }

  /** A match at `pos`: both forms wrap it and continue after it. */
  lemma SubstituteMatchStep(text: string, kw: string, pos: nat)
    requires |kw| > 0 && pos < |text| && MatchAt(text, kw, pos)
    requires Substitute(text, kw, pos + |kw|) == Wrap(text, Scan(text, kw, pos + |kw|), |kw|, pos + |kw|)
    ensures Substitute(text, kw, pos) == Wrap(text, Scan(text, kw, pos), |kw|, pos)
  {
    var n, ps := |kw|, Scan(text, kw, pos);
    var rest := Scan(text, kw, pos + n);
    assert ps == [pos] + rest;
    WrapHead(text, ps, n, pos);
    assert ps[1..] == rest;
  }

  /** No match at `pos`: both forms copy the character. */
  lemma SubstitutePlainStep(text: string, kw: string, pos: nat)
    requires |kw| > 0 && pos < |text| && !MatchAt(text, kw, pos)
    requires Substitute(text, kw, pos + 1) == Wrap(text, Scan(text, kw, pos + 1), |kw|, pos + 1)
    ensures Substitute(text, kw, pos) == Wrap(text, Scan(text, kw, pos), |kw|, pos)
  {
    WrapStep(text, Scan(text, kw, pos), |kw|, pos);
  }

  /** The substitution wraps exactly the matches `re.findall` reports (the
      same pattern and flags): the number of wrappers inserted is the count,
      each wrapper holds the matched text with its original casing, and
      everything between matches is copied unchanged. */
  lemma {:induction false} SubstituteWrapsScan(text: string, kw: string, pos: nat)
    requires |kw| > 0 && pos <= |text|
    ensures Substitute(text, kw, pos) == Wrap(text, Scan(text, kw, pos), |kw|, pos)
    decreases |text| - pos
  {
    if pos == |text| {
    } else if MatchAt(text, kw, pos) {
      SubstituteWrapsScan(text, kw, pos + |kw|);
      SubstituteMatchStep(text, kw, pos);
    } else {
      SubstituteWrapsScan(text, kw, pos + 1);
      SubstitutePlainStep(text, kw, pos);
    }
  }

  /** `HighlightKeywords` is the text with every whole-word match wrapped. */
  lemma HighlightWrapsMatches(text: string, kw: string)
    requires ValidKeyword(kw)
    ensures HighlightKeywords(text, kw) == Wrap(text, Scan(text, kw, 0), |kw|, 0)
    ensures |Scan(text, kw, 0)| == Count(text, kw)
    ensures forall q: int :: q in Scan(text, kw, 0) <==> MatchAt(text, kw, q)
  {
    SubstituteWrapsScan(text, kw, 0);
    ScanIsExact(text, kw, 0);
  }

  /** Without a match nothing is wrapped: the text comes back unchanged. */
  lemma {:induction false} NoMatchLeavesTextUnchanged(text: string, kw: string)
    requires ValidKeyword(kw) && Count(text, kw) == 0
    ensures HighlightKeywords(text, kw) == text
  {
    SubstituteWrapsScan(text, kw, 0);
    assert Scan(text, kw, 0) == [];
  }

  /** The length of the tag at the head of `s`, or 0 when none starts there. */
  function TagLength(s: string): nat {
    if Open <= s then |Open| else if Close <= s then |Close| else 0
  }

  /** A tag starts at position `i` of `s`. */
  predicate TagAt(s: string, i: int) {
    0 <= i < |s| && TagLength(s[i..]) > 0
  }

  /** No tag occurs anywhere in `s`. */
  predicate NoTags(s: string) {
    forall i :: 0 <= i < |s| ==> !TagAt(s, i)
  }

  /** Deletes every `<mark>` and `</mark>`, scanning left to right. */
  function Unmark(s: string): string
    decreases |s|
  {
    if s == [] then []
    else if TagLength(s) > 0 then Unmark(s[TagLength(s)..])
    else [s[0]] + Unmark(s[1..])
  }

  /** The number of `<mark>` tags that the same left-to-right scan meets. */
  function OpenTags(s: string): nat
    decreases |s|
  {
    if s == [] then 0
    else if TagLength(s) > 0 then (if Open <= s then 1 else 0) + OpenTags(s[TagLength(s)..])
    else OpenTags(s[1..])
  }

  lemma PrefixTrans(tag: string, x: string, y: string)
    requires tag <= x && x <= y
    ensures tag <= y
  {
    assert y[..|tag|] == x[..|tag|];
  }

  /** A tag inside a slice is a tag of the whole text. */
  lemma TagInSlice(s: string, a: nat, b: nat, i: int)
    requires a <= b <= |s| && TagAt(s[a..b], i)
    ensures TagAt(s, a + i)
  {
    var x, y := s[a..b][i..], s[a + i..];
    assert x == s[a + i..b];
    assert y[..|x|] == x;
    if Open <= x {
      PrefixTrans(Open, x, y);
    } else {
      PrefixTrans(Close, x, y);
    }
  }

  /** A slice of a tag-free text is tag-free. */
  lemma NoTagsSlice(s: string, a: nat, b: nat)
    requires a <= b <= |s| && NoTags(s)
    ensures NoTags(s[a..b])
  {
    forall i | 0 <= i < b - a ensures !TagAt(s[a..b], i) {
      if TagAt(s[a..b], i) {
        TagInSlice(s, a, b, i);
      }
    }
  }

  /** A non-empty tag-free piece followed by something that starts with `<`
      (or by nothing) does not start with `tag`: inside the piece there is
      none, and across the seam there is none because both tags have their
      only `<` at their head. */
  lemma NoTagAcrossSeamFor(plain: string, rest: string, tag: string)
    requires NoTags(plain) && plain != [] && (rest == [] || rest[0] == '<')
    requires tag == Open || tag == Close
    ensures !(tag <= plain + rest)
  {
    var s := plain + rest;
    if |tag| <= |s| {
      if |tag| <= |plain| {
        assert !TagAt(plain, 0);
        assert plain[0..] == plain;
        assert s[..|tag|] == plain[..|tag|];
      } else {
        assert s[|plain|] == '<';
        assert tag[|plain|] != '<';
      }
    }
  }

  lemma NoTagAcrossSeam(plain: string, rest: string)
    requires NoTags(plain) && plain != [] && (rest == [] || rest[0] == '<')
    ensures TagLength(plain + rest) == 0
  {
    NoTagAcrossSeamFor(plain, rest, Open);
    NoTagAcrossSeamFor(plain, rest, Close);
  }

  lemma TailOfConcat(a: string, b: string)
    requires a != []
    ensures (a + b)[0] == a[0] && (a + b)[1..] == a[1..] + b
  {
  }

  /** One step of either scan over a character that starts no tag. */
  lemma PlainStep(s: string)
    requires s != [] && TagLength(s) == 0
    ensures Unmark(s) == [s[0]] + Unmark(s[1..])
    ensures OpenTags(s) == OpenTags(s[1..])
  {
  }

  /** One character of a tag-free piece in front of something that starts
      with `<` (or is empty) is copied through and counts no tag. */
  lemma PlainPrefixHead(plain: string, rest: string)
    requires NoTags(plain) && plain != [] && (rest == [] || rest[0] == '<')
    ensures NoTags(plain[1..])
    ensures Unmark(plain + rest) == [plain[0]] + Unmark(plain[1..] + rest)
    ensures OpenTags(plain + rest) == OpenTags(plain[1..] + rest)
  {
    NoTagAcrossSeam(plain, rest);
    PlainStep(plain + rest);
    NoTagsSlice(plain, 1, |plain|);
    assert plain[1..|plain|] == plain[1..];
    TailOfConcat(plain, rest);
  }

  lemma ConsConcat(a: string, b: string)
    requires a != []
    ensures [a[0]] + (a[1..] + b) == a + b
  {
    assert [a[0]] + a[1..] == a;
  }

  /** The scan copies a tag-free piece through when what follows it starts
      with `<` (or is empty). */
  lemma {:induction false} UnmarkPlainPrefix(plain: string, rest: string)
    requires NoTags(plain) && (rest == [] || rest[0] == '<')
    ensures Unmark(plain + rest) == plain + Unmark(rest)
    decreases |plain|
  {
    if plain != [] {
      PlainPrefixHead(plain, rest);
      UnmarkPlainPrefix(plain[1..], rest);
      ConsConcat(plain, Unmark(rest));
    } else {
      assert plain + rest == rest;
    }
  }

  /** The same scan meets no `<mark>` in a tag-free piece. */
  lemma {:induction false} OpenTagsPlainPrefix(plain: string, rest: string)
    requires NoTags(plain) && (rest == [] || rest[0] == '<')
    ensures OpenTags(plain + rest) == OpenTags(rest)
    decreases |plain|
  {
    if plain != [] {
      PlainPrefixHead(plain, rest);
      OpenTagsPlainPrefix(plain[1..], rest);
    } else {
      assert plain + rest == rest;
    }
  }

  /** Either scan skips a tag at the head, counting it when it is `<mark>`. */
  lemma TagStep(tag: string, x: string)
    requires tag == Open || tag == Close
    ensures Unmark(tag + x) == Unmark(x)
    ensures OpenTags(tag + x) == (if tag == Open then 1 else 0) + OpenTags(x)
  {
    var s := tag + x;
    assert s[..|tag|] == tag;
    if tag == Close {
      assert s[1] != Open[1];
    }
    assert TagLength(s) == |tag|;
    assert s[|tag|..] == x;
  }

  /** The pieces of the reference form, regrouped to the right. */
  lemma WrapPieces(text: string, ps: seq<nat>, n: nat, from: nat)
    requires from <= |text| && Spaced(ps, n) && |ps| > 0
    requires forall k :: 0 <= k < |ps| ==> from <= ps[k] && ps[k] + n <= |text|
    ensures Wrap(text, ps, n, from) ==
      text[from..ps[0]] + (Open + (text[ps[0]..ps[0] + n] + (Close + Wrap(text, ps[1..], n, ps[0] + n))))
  {
  }

  /** Unmarking one wrapped match and the plain text before it. */
  lemma UnmarkPieces(plain: string, span: string, tail: string)
    requires NoTags(plain) && NoTags(span)
    ensures Unmark(plain + (Open + (span + (Close + tail)))) == plain + (span + Unmark(tail))
  {
    UnmarkPlainPrefix(plain, Open + (span + (Close + tail)));
    TagStep(Open, span + (Close + tail));
    UnmarkPlainPrefix(span, Close + tail);
    TagStep(Close, tail);
  }

  /** Counting the `<mark>` of one wrapped match and the plain text before it. */
  lemma OpenTagsPieces(plain: string, span: string, tail: string)
    requires NoTags(plain) && NoTags(span)
    ensures OpenTags(plain + (Open + (span + (Close + tail)))) == 1 + OpenTags(tail)
  {
    OpenTagsPlainPrefix(plain, Open + (span + (Close + tail)));
    TagStep(Open, span + (Close + tail));
    OpenTagsPlainPrefix(span, Close + tail);
    TagStep(Close, tail);
  }

  lemma SplitThree(s: string, a: nat, b: nat, c: nat)
    requires a <= b <= c <= |s|
    ensures s[a..] == s[a..b] + (s[b..c] + s[c..])
  {
    assert s[a..] == s[a..b] + s[b..];
    assert s[b..] == s[b..c] + s[c..];
  }

  /** The plain text after the last wrapped match: copied through, no tag. */
  lemma PlainSuffix(text: string, from: nat)
    requires from <= |text| && NoTags(text)
    ensures Unmark(text[from..]) == text[from..]
    ensures OpenTags(text[from..]) == 0
  {
    var rest := text[from..];
    NoTagsSlice(text, from, |text|);
    assert text[from..|text|] == rest && rest + [] == rest;
    UnmarkPlainPrefix(rest, []);
    OpenTagsPlainPrefix(rest, []);
  }

  /** Unmarking one wrapped match, the plain text before it and a tail that
      unmarks to the rest of the text. */
  lemma UnmarkWrapStep(text: string, from: nat, p: nat, n: nat, tail: string)
    requires from <= p && p + n <= |text| && NoTags(text)
    requires Unmark(tail) == text[p + n..]
    ensures Unmark(text[from..p] + (Open + (text[p..p + n] + (Close + tail)))) == text[from..]
  {
    NoTagsSlice(text, from, p);
    NoTagsSlice(text, p, p + n);
    UnmarkPieces(text[from..p], text[p..p + n], tail);
    SplitThree(text, from, p, p + n);
  }

  /** Unmarking the reference form gives back the text. */
  lemma {:induction false} UnmarkWrap(text: string, ps: seq<nat>, n: nat, from: nat)
    requires from <= |text| && Spaced(ps, n) && NoTags(text)
    requires forall k :: 0 <= k < |ps| ==> from <= ps[k] && ps[k] + n <= |text|
    ensures Unmark(Wrap(text, ps, n, from)) == text[from..]
    decreases |ps|
  {
    if ps == [] {
      PlainSuffix(text, from);
    } else {
      var p, rest := ps[0], ps[1..];
      var tail := Wrap(text, rest, n, p + n);
      UnmarkWrap(text, rest, n, p + n);
      assert Unmark(tail) == text[p + n..];
      WrapPieces(text, ps, n, from);
      UnmarkWrapStep(text, from, p, n, tail);
    }
  }

  /** Counting one wrapped match and the plain text before it. */
  lemma OpenTagsWrapStep(text: string, from: nat, p: nat, n: nat, tail: string)
    requires from <= p && p + n <= |text| && NoTags(text)
    ensures OpenTags(text[from..p] + (Open + (text[p..p + n] + (Close + tail)))) == OpenTags(tail) + 1
  {
    NoTagsSlice(text, from, p);
    NoTagsSlice(text, p, p + n);
    OpenTagsPieces(text[from..p], text[p..p + n], tail);
  }

  /** The same scan meets one `<mark>` per wrapped position. */
  lemma {:induction false} OpenTagsWrap(text: string, ps: seq<nat>, n: nat, from: nat)
    requires from <= |text| && Spaced(ps, n) && NoTags(text)
    requires forall k :: 0 <= k < |ps| ==> from <= ps[k] && ps[k] + n <= |text|
    ensures OpenTags(Wrap(text, ps, n, from)) == |ps|
    decreases |ps|
  {
    if ps == [] {
      PlainSuffix(text, from);
    } else {
      var p, rest := ps[0], ps[1..];
      var tail := Wrap(text, rest, n, p + n);
      OpenTagsWrap(text, rest, n, p + n);
      assert OpenTags(tail) == |rest|;
      assert |rest| + 1 == |ps|;
      WrapPieces(text, ps, n, from);
      OpenTagsWrapStep(text, from, p, n, tail);
    }
  }

  /** Deleting the inserted tags gives back the OCR text exactly, and there
      are as many `<mark>` tags as `re.findall` counts matches. Both need the
      text itself to hold no tag, or the deletion would remove its tags too. */
  lemma UnmarkRestoresText(text: string, kw: string)
    requires ValidKeyword(kw)
    ensures NoTags(text) ==> Unmark(HighlightKeywords(text, kw)) == text
    ensures NoTags(text) ==> OpenTags(HighlightKeywords(text, kw)) == Count(text, kw)
  {
    if NoTags(text) {
      HighlightWrapsMatches(text, kw);
      UnmarkWrap(text, Scan(text, kw, 0), |kw|, 0);
      OpenTagsWrap(text, Scan(text, kw, 0), |kw|, 0);
    }
  }
}
