# Pixel OCR keyword search and highlighting, in Dafny

This project models the core of a small Streamlit page (`gg/main.py`). The
page takes an uploaded image and a language choice, and runs OCR on the image
with the Tesseract code that the choice selects. It then searches the extracted
text for a keyword, reports how many times the keyword occurs, and shows the
text with every occurrence wrapped in `<mark>` … `</mark>`.

The core is three pieces of the page:

- `highlight_keywords` (lines 13-15) substitutes the pattern `(\b<keyword>\b)`
  with `<mark>\1</mark>`, ignoring case.
- The search (lines 120-130) counts the `re.findall` matches of `\b<keyword>\b`
  with `re.IGNORECASE`. It runs only for a non-empty keyword and highlights only
  when the count is positive.
- The language choice (lines 104-110) maps "Hindi" to `hin` and "Both" to
  `eng+hin`. Every other choice keeps `eng`.

Modules:

- `Chars` (`chars.dfy`): the `\w` class behind `\b`, and ASCII case folding
  for `re.IGNORECASE`.
- `Matching` (`matching.dfy`): where the pattern matches (`MatchAt`), and the
  regex engine's left-to-right, non-overlapping scan (`Scan`). It also holds a
  reference count that tries every position (`Occurrences`) and
  `re.findall` / `len(matches)` (`FindAll`, `Count`).
- `Highlight` (`highlight.dfy`): `re.sub` (`Substitute`) and
  `highlight_keywords` (`HighlightKeywords`). It also holds a reference form
  of the result, the text with given positions wrapped (`Wrap`), and the
  inverse of highlighting, which deletes the tags (`Unmark`) and counts the
  `<mark>` tags (`OpenTags`).
- `Language` (`language.dfy`): the language choice and its code.
- `Page` (`page.dfy`): one interaction with the page. The OCR engine is a
  function parameter.
- `Scenarios` (`scenarios.dfy`): concrete searches that show case-insensitive,
  whole-word matching and the highlighted output.

The keyword is placed into the pattern without escaping. The model therefore
covers keywords for which the pattern is the keyword taken literally: non-empty
and made only of word characters (`Matching.ValidKeyword`). An empty keyword
never reaches the regex, because the page checks it first (line 120).

## Model

| member | source | states |
|---|---|---|
| `Chars.IsWordChar` | gg/main.py:121 | The `\w` class behind `\b`, on ASCII: a letter, a digit or `_`. It has no contract of its own; `MatchAtIsWholeWord` and `MatchedCharsAreWordChars` state what it decides about matches. |
| `Chars.Fold` | gg/main.py:14 | Case folding under `re.IGNORECASE`: an ASCII upper-case letter becomes the lower-case letter 32 code points above it, and every other character stays as it is. So the result is never upper-case, and the character stays inside or outside the `\w` class. |
| `Chars.FoldEqualsIff` | gg/main.py:121 | Two characters are equal up to case if and only if they are the same character or the two cases of one ASCII letter. |
| `Chars.EqualsIgnoreCase` | gg/main.py:121 | The literal, case-insensitive comparison of a text window with the keyword under `re.IGNORECASE`: same length, and equal after folding, character by character. It has no contract of its own; `FoldEqualsIff` says when two characters are equal up to case, and `IgnoreCaseKeepsWordChars` says such a window of a word keyword is made of word characters. |
| `Chars.IgnoreCaseKeepsWordChars` | gg/main.py:121 | A window that equals an all-word-character keyword up to case is itself made of word characters. |
| `Matching.WordBoundary` | gg/main.py:121 | `\b` at position `i`: exactly one of the characters on its two sides is a word character, a string edge counting as a non-word character. It has no contract of its own; `MatchAtIsWholeWord` turns it into conditions on the neighbouring characters. |
| `Matching.MatchAt` | gg/main.py:121 | The pattern `\b<kw>\b` with `re.IGNORECASE` matches at `i`: a boundary, the keyword up to case, a boundary. It has no contract of its own; `MatchAtIsWholeWord` gives its whole-word reading, and `ScanIsExact` shows the scan reports exactly its positions. |
| `Matching.MatchAtIsWholeWord` | gg/main.py:121 | `\b<kw>\b` matches at `i` exactly when the window at `i` equals the keyword up to case, and both sides are a string edge or a non-word character. So "cat" is not found inside "category". |
| `Matching.MatchedCharsAreWordChars` | gg/main.py:121 | Every character covered by a match is a word character. |
| `Matching.MatchesDoNotOverlap` | gg/main.py:121 | Two matches of a word keyword never overlap: the later one starts at or after the end of the earlier one. |
| `Matching.Scan` | gg/main.py:121 | The engine's scan reports positions that lie inside the text, increase, and are at least the keyword's length apart, so the scan runs left to right without overlaps. |
| `Matching.ScanFindsMatches` | gg/main.py:121 | Every position the scan reports is a match. |
| `Matching.ScanIsExact` | gg/main.py:121 | A position is reported if and only if the pattern matches there. Skipping over a match never hides another match. |
| `Matching.OccurrencesSkip` | gg/main.py:121 | A stretch with no match does not change the reference count. |
| `Matching.ScanSkip` | gg/main.py:121 | A stretch with no match does not change what the scan reports. |
| `Matching.ScanCountsOccurrences` | gg/main.py:121 | The number of matches the scan reports equals the reference count, which tries every position on its own. |
| `Matching.FindAll` | gg/main.py:121 | `re.findall` returns one substring per reported position, in order. Each substring is the window of the text at that position, so it keeps the text's casing. |
| `Matching.FindAllMatchesKeyword` | gg/main.py:121 | Each substring `re.findall` returns comes from a whole-word match and equals the keyword up to case. |
| `Matching.Count` | gg/main.py:121-123 | `len(matches)` equals the reference count of whole-word occurrences. It is zero exactly when the pattern matches nowhere. |
| `Highlight.Substitute` | gg/main.py:14 | `re.sub` of the pattern with `<mark>\1</mark>`, from a given position. It has no contract of its own; `SubstituteWrapsScan` proves it equal to the reference form `Wrap` of the scan's positions, and `SubstituteLength` gives its length. |
| `Highlight.HighlightKeywords` | gg/main.py:13-15 | The highlighted text is the text lengthened by 13 characters (`<mark>` plus `</mark>`) per counted match. |
| `Highlight.SubstituteLength` | gg/main.py:14 | From any position, the substitution adds 13 characters per match the scan reports there. |
| `Highlight.WrapStep` | gg/main.py:14 | Before the first wrapped position, the reference form copies the text character by character. |
| `Highlight.WrapHead` | gg/main.py:14 | At a wrapped position, the reference form emits `<mark>`, the window and `</mark>`, then continues after the window. |
| `Highlight.SubstituteMatchStep` | gg/main.py:14 | At a match, `re.sub` and the reference form agree on the wrapped window, given that they agree after it. |
| `Highlight.SubstitutePlainStep` | gg/main.py:14 | Where there is no match, both copy the character, given that they agree after it. |
| `Highlight.SubstituteWrapsScan` | gg/main.py:14 | `re.sub` wraps exactly the positions `re.findall` reports for the same pattern and flags. Each wrapper holds the matched text with its own casing, and everything else is copied unchanged. |
| `Highlight.HighlightWrapsMatches` | gg/main.py:13-15 | `highlight_keywords` is the text with every whole-word match wrapped. There are as many wrappers as the count, and a position is wrapped exactly when the pattern matches there. |
| `Highlight.NoMatchLeavesTextUnchanged` | gg/main.py:13-15 | With a count of zero, highlighting returns the text unchanged. |
| `Highlight.UnmarkWrap` | gg/main.py:14 | Deleting the tags from the reference form of a tag-free text gives the text back. |
| `Highlight.OpenTagsWrap` | gg/main.py:14 | The reference form of a tag-free text holds one `<mark>` per wrapped position. |
| `Highlight.UnmarkRestoresText` | gg/main.py:13-15 | For a text that holds no `<mark>` or `</mark>` of its own, deleting the tags from the highlighted text gives back the OCR text. The number of `<mark>` tags equals the `re.findall` count. |
| `Language.LangCode` | gg/main.py:104-110 | The code is always one of `eng`, `hin`, `eng+hin`. It is `hin` if and only if the choice is "Hindi", `eng+hin` if and only if it is "Both", and `eng` for every other choice. |
| `Language.ChoicesMatchCodes` | gg/main.py:104-110 | The three offered choices give `eng`, `hin` and `eng+hin`. No two choices share a code, and every code is reached. |
| `Page.Search` | gg/main.py:120-130 | An empty keyword skips the search. Otherwise there is a warning exactly when the pattern matches nowhere. When the keyword is found, the reported count is the number of whole-word occurrences and is positive. The highlighted text is the OCR text with exactly the whole-word matches wrapped in `<mark>` … `</mark>`, the ones `re.findall` reports, so it is 13 characters longer per match. For a tag-free text, deleting its tags gives back the text and it holds one `<mark>` per counted match. |
| `Page.Interact` | gg/main.py:97-132 | Without an upload the page asks for one. With an upload, OCR runs with the code of the selected language. The search is skipped exactly when the keyword is empty, and otherwise finds the keyword exactly when it occurs as a whole word in the OCR text. The search result is the one `Search` gives for the OCR text, so its count and highlighted text carry over to the page. |
| `Scenarios.CaseInsensitiveCount` | gg/main.py:121-123 | "hello" is found 3 times in "Hello hello HELLO". |
| `Scenarios.WholeWordCount` | gg/main.py:121-123 | "cat" is found once in "cat category cats". |
| `Scenarios.FoxCount` | gg/main.py:121-123 | "fox" is found twice in "The quick brown Fox jumps over the fox". |
| `Scenarios.FoxHighlight` | gg/main.py:13-15 | Highlighting "fox" in that text wraps "Fox" and "fox", each in its own casing, and copies the rest. |

## Left out

- OCR (`pytesseract.image_to_string`, lines 9-11) is not modelled. It is the parameter `recognize` of `Page.Interact`, because it is a call into an external engine.
- Opening the image, the upload widget, the spinner and all display calls (`st.*`, the CSS, the footer) are not modelled. They are user interface with no logic beyond the branches that `Page.Interact` models.
- The `\w` class and `re.IGNORECASE` are modelled on ASCII only. Python's `re` uses Unicode for both, and so treats Devanagari letters in Hindi text as word characters and folds non-ASCII case pairs. Next to non-ASCII letters, the model's word boundaries can differ from Python's.
- HighlightKeywords: requires a non-empty keyword made only of word characters. The source interpolates the keyword into the pattern without escaping, so a keyword holding regex metacharacters is read as a regular expression, and general regular expressions are not modelled. Keywords with non-word characters that are not metacharacters, such as `e-mail` or `hello world`, are matched literally by the source. The model leaves them out too, because its proof that matches never overlap relies on every keyword character being a word character. For a keyword that starts or ends with a non-word character, `\b` at that edge also stops being a whole-word test.
- Count: requires the same keyword restriction, for the same reason.
- FindAll: requires the same keyword restriction, for the same reason.
- Search: accepts the empty keyword, which it skips as the page does, and otherwise the same word-character keywords.
- Interact: the same keyword restriction as `Search`.
- UnmarkRestoresText: the round trip is stated for texts that hold no `<mark>` or `</mark>` of their own. Deleting the tags from a text that already held some would delete those as well.
- The keyword is placed into both patterns as it is, without escaping (lines 14 and 121). `highlight_keywords` is only called when the keyword is non-empty (lines 120-125). With an empty keyword the pattern would be `(\b\b)`, and `re.sub` would insert an empty `<mark></mark>` pair at every word boundary. The page never reaches that case, so it is not modelled.
