/** The sidebar's language choice and the Tesseract language code it selects
    (gg/main.py:104-110). */
module Language {

  /** The options of the "Select OCR Language" box, in display order. */
  const Choices: seq<string> := ["English", "Hindi", "Both"]

  /** The Tesseract language codes the page can pass to the OCR engine. */
  const Codes: set<string> := {"eng", "hin", "eng+hin"}

  /** `lang_code` starts as "eng" and is overridden for "Hindi" and "Both"; any
      other selection, "English" included, keeps the default. */
  function LangCode(language: string): (code: string)
    ensures code in Codes
    ensures code == "hin" <==> language == "Hindi"
    ensures code == "eng+hin" <==> language == "Both"
    ensures code == "eng" <==> language != "Hindi" && language != "Both"
  {
    if language == "Hindi" then "hin"
    else if language == "Both" then "eng+hin"
    else "eng"
  }

  /** The mapping is fixed and one-to-one on the offered choices, and they
      reach every code: English, Hindi and Both give "eng", "hin" and
      "eng+hin". */
  lemma ChoicesMatchCodes()
    ensures LangCode(Choices[0]) == "eng" && LangCode(Choices[1]) == "hin"
      && LangCode(Choices[2]) == "eng+hin"
    ensures forall i, j :: 0 <= i < j < |Choices| ==> LangCode(Choices[i]) != LangCode(Choices[j])
    ensures forall c :: c in Codes <==> exists i :: 0 <= i < |Choices| && LangCode(Choices[i]) == c
  {
    forall c | c in Codes ensures exists i :: 0 <= i < |Choices| && LangCode(Choices[i]) == c {
      if c == "eng" {
        assert LangCode(Choices[0]) == c;
      } else if c == "hin" {
        assert LangCode(Choices[1]) == c;
      } else {
        assert LangCode(Choices[2]) == c;
      }
    }
  }
}
