/** The per-interaction flow of the page (gg/main.py:97-132): the selected
    language picks the OCR code, the OCR text is searched for the keyword, and
    the text is highlighted only when the keyword is found. */
module Page {
  import opened Matching
  import opened Highlight
  import opened Language

  /** What the search step shows: nothing (no keyword typed), the warning
      (no match), or the success message with the count and the highlighted
      text. */
  datatype SearchResult = NoQuery | NoMatches | Found(count: nat, highlighted: string)

  /** gg/main.py:120-130: an empty keyword skips the search; otherwise the
      matches are counted and, when there is at least one, the text is
      highlighted. */
  function Search(text: string, query: string): (r: SearchResult)
    requires query == [] || ValidKeyword(query)
    ensures r.NoQuery? <==> query == []
    ensures r.NoMatches? <==> query != [] && forall q :: !MatchAt(text, query, q)
    ensures r.Found? ==> r.count == Occurrences(text, query, 0) && r.count > 0
    ensures r.Found? ==> |r.highlighted| == |text| + 13 * r.count
    ensures r.Found? && NoTags(text) ==>
      Unmark(r.highlighted) == text && OpenTags(r.highlighted) == r.count
    ensures r.Found? ==> r.highlighted == Wrap(text, Scan(text, query, 0), |query|, 0)
    ensures r.Found? ==> forall q: int :: q in Scan(text, query, 0) <==> MatchAt(text, query, q)
  {
    if query == [] then NoQuery
    else
      var n := Count(text, query);
      UnmarkRestoresText(text, query);
      HighlightWrapsMatches(text, query);
      if n > 0 then Found(n, HighlightKeywords(text, query)) else NoMatches
  }

  /** An uploaded image, or none yet (gg/main.py:95-97). */
  datatype Upload<Image> = NoUpload | Uploaded(image: Image)

  /** What one interaction produces: the prompt to upload (gg/main.py:132),
      or the code the OCR engine was called with, its text and the search
      outcome (gg/main.py:112-130). */
  datatype Screen = AwaitingUpload | Extracted(code: string, text: string, search: SearchResult)

  /** One pass over the page. The OCR engine is the parameter `recognize`
      (gg/main.py:9-11). */
  function Interact<Image>(upload: Upload<Image>, language: string, query: string,
                           recognize: (Image, string) -> string): (s: Screen)
    requires query == [] || ValidKeyword(query)
    ensures s.AwaitingUpload? <==> upload.NoUpload?
    ensures s.Extracted? ==> s.code in Codes && s.code == LangCode(language)
    ensures s.Extracted? ==> s.text == recognize(upload.image, s.code)
    ensures s.Extracted? ==> (s.search.NoQuery? <==> query == [])
    ensures s.Extracted? && query != [] ==> (s.search.Found? <==> Occurrences(s.text, query, 0) > 0)
    ensures s.Extracted? ==> s.search == Search(s.text, query)
  {
    match upload
    case NoUpload => AwaitingUpload
    case Uploaded(image) =>
      var code := LangCode(language);
      var text := recognize(image, code);
      Extracted(code, text, Search(text, query))
  }
}
