/**
 * Keyword extraction (`extract_keywords`). The extractor itself is
 * outside the model; what is modelled is the guard in front of it and the
 * fallback when it fails.
 */
module Keywords {
  import opened Wrappers

  datatype Keyword = Keyword(keyword: string, score: real)

  /** Texts shorter than this yield no keywords. */
  const MinKeywordTextLength: nat := 10

  /**
   * `extractor` stands for the configured keyword extractor: the
   * (keyword, score) pairs it finds, or `None` when it raises.
   */
  function ExtractKeywords(text: string, extractor: string -> Option<seq<(string, real)>>): (r: seq<Keyword>)
    ensures |text| < MinKeywordTextLength ==> r == []
    ensures extractor(text).None? ==> r == []
    ensures |text| >= MinKeywordTextLength && extractor(text).Some? ==>
      |r| == |extractor(text).value| &&
      forall i :: 0 <= i < |r| ==> r[i] == Keyword(extractor(text).value[i].0, extractor(text).value[i].1)
  {
    if text == [] || |text| < MinKeywordTextLength then []
    else
      match extractor(text)
      case None => []
      case Some(pairs) => seq(|pairs|, i requires 0 <= i < |pairs| => Keyword(pairs[i].0, pairs[i].1))
  }
}
