/**
 * `TwitterPublisher.split_text` of the publishing script.  The method uses
 * nothing of the publisher object (its API client only serves the network
 * calls), so it is modelled as a method of the module.  Its sentences end at
 * `'! '`, `'? '` and `'. '` only.
 */
module PublishTweet {
  import opened Splitter

  method SplitText(text: string, maxLength: int) returns (chunks: seq<string>)
    requires Admissible(text, maxLength)
    ensures chunks == SplitTextSpec(text, maxLength, Terminators)
  {
    chunks := Splitter.SplitText(text, maxLength, Terminators);
  }
}
