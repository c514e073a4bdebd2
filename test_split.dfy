/**
 * `split_text` of the preview script: the same splitter, whose sentences
 * also end right after a full-width period `'。'`.
 */
module TestSplit {
  import opened Splitter

  method SplitText(text: string, maxLength: int) returns (chunks: seq<string>)
    requires Admissible(text, maxLength)
    ensures chunks == SplitTextSpec(text, maxLength, TerminatorsAndFullStop)
  {
    chunks := Splitter.SplitText(text, maxLength, TerminatorsAndFullStop);
  }
}
