/**
 * The thread splitter: a long text becomes a list of tweet-sized chunks.
 *
 * `SplitTextSpec` is the splitter as a function of its inputs, built from
 * one function per step of the source's loops (`SentenceStep`,
 * `ParagraphStep`) folded over the sentences and paragraphs;
 * `SplitText` is the splitter as the source writes it, with the
 * accumulator `current`, the growing `chunks` list and the three loops,
 * proved to return what `SplitTextSpec` says.  Both copies of the
 * splitter in the repository run this algorithm; they differ only in which
 * characters end a sentence, which `Boundaries` selects.
 */
module Splitter {
  import opened PyStr

  /** Characters kept free in every chunk for the "i/total" marker. */
  const ReserveChars := 6

  /** The default tweet length of both copies. */
  const DefaultMaxLength := 280

  const ParagraphSep := "\n\n"

  /** The full-width period, U+3002. */
  const FullStop := '\U{3002}'

  /** Which sentence ends a copy recognises: `Terminators` is `'! '`, `'? '`
      and `'. '` (publish_tweet.py); `TerminatorsAndFullStop` adds `'。'`
      (test_split.py). */
  datatype Boundaries = Terminators | TerminatorsAndFullStop

  /** The calls that return.  The hard-split loop cuts `effective_max`
      characters per round and never exits when `effective_max <= 0`; the
      fast path returns before reaching it. */
  predicate Admissible(text: string, maxLength: int) {
    |text| <= maxLength || ReserveChars < maxLength
  }

  /** The replace-then-split trick: each sentence end gets a `'|'` after its
      terminator (in place of the space for `'! '`, `'? '` and `'. '`), then
      the paragraph is cut at every `'|'`. */
  function MarkSentences(paragraph: string, b: Boundaries): (r: string)
    ensures b == Terminators ==> |r| == |paragraph|
  {
    var m := Replace(Replace(Replace(paragraph, "! ", "!|"), "? ", "?|"), ". ", ".|");
    if b == TerminatorsAndFullStop then Replace(m, [FullStop], [FullStop, '|']) else m
  }

  function Sentences(paragraph: string, b: Boundaries): (r: seq<string>)
    ensures |r| >= 1
  {
    SplitOn(MarkSentences(paragraph, b), "|")
  }

  /** The pieces cut off a sentence, in order, and what is left of it. */
  datatype Cut = Cut(pieces: seq<string>, rest: string)

  /** The hard-split loop: while the sentence is longer than `eff`, emit its
      first `eff` characters stripped and keep the remainder.  The remainder
      fits in `eff`, and a non-empty sentence leaves a non-empty remainder. */
  function HardSplit(s: string, eff: nat): (c: Cut)
    requires eff > 0
    ensures |c.rest| <= eff && (|s| > 0 ==> |c.rest| > 0)
    decreases |s|
  {
    if |s| > eff then
      var tail := HardSplit(s[eff..], eff);
      Cut([Strip(s[..eff])] + tail.pieces, tail.rest)
    else
      Cut([], s)
  }

  /** Every piece the hard split emits fits in `eff` and is stripped. */
  lemma {:induction false} HardSplitPieces(s: string, eff: nat)
    requires eff > 0
    ensures forall i :: 0 <= i < |HardSplit(s, eff).pieces| ==>
              |HardSplit(s, eff).pieces[i]| <= eff && IsStripped(HardSplit(s, eff).pieces[i])
    decreases |s|
  {
    if |s| > eff {
      var c, tail := HardSplit(s, eff), HardSplit(s[eff..], eff);
      HardSplitPieces(s[eff..], eff);
      assert c.pieces == [Strip(s[..eff])] + tail.pieces;
      forall i | 0 <= i < |c.pieces| ensures |c.pieces[i]| <= eff && IsStripped(c.pieces[i]) {
        if i == 0 {
          assert c.pieces[0] == Strip(s[..eff]);
          assert |s[..eff]| == eff;
        } else {
          assert c.pieces[i] == tail.pieces[i - 1];
          assert |tail.pieces[i - 1]| <= eff && IsStripped(tail.pieces[i - 1]);
        }
      }
    }
  }

  /** The splitter's state between two steps: the finished chunks and the
      chunk being built (`current_chunk`). */
  datatype Acc = Acc(chunks: seq<string>, current: string)

  /** `if current_chunk: chunks.append(current_chunk.strip())`. */
  function Flush(chunks: seq<string>, current: string): (r: seq<string>)
    ensures current == "" ==> r == chunks
    ensures current != "" ==> r == chunks + [Strip(current)]
  {
    if current != "" then chunks + [Strip(current)] else chunks
  }

  /** One round of the loop over the sentences of an oversized paragraph. */
  function SentenceStep(acc: Acc, raw: string, eff: nat): Acc
    requires eff > 0
  {
    var sentence := Strip(raw);
    if sentence == "" then acc
    else if acc.current != "" && |acc.current| + |sentence| + 1 > eff then
      Acc(acc.chunks + [Strip(acc.current)], sentence)
    else if |sentence| > eff then
      var cut := HardSplit(sentence, eff);
      Acc(Flush(acc.chunks, acc.current) + cut.pieces, cut.rest)
    else
      Acc(acc.chunks, if acc.current != "" then Strip(acc.current + " " + sentence) else sentence)
  }

  function SentenceFold(acc: Acc, sentences: seq<string>, eff: nat): Acc
    requires eff > 0
    decreases |sentences|
  {
    if sentences == [] then acc
    else SentenceStep(SentenceFold(acc, sentences[..|sentences| - 1], eff), sentences[|sentences| - 1], eff)
  }

  /** One round of the loop over the paragraphs. */
  function ParagraphStep(acc: Acc, raw: string, eff: nat, b: Boundaries): Acc
    requires eff > 0
  {
    var paragraph := Strip(raw);
    if paragraph == "" then acc
    else if acc.current != "" && |acc.current| + |paragraph| + 2 > eff then
      Acc(acc.chunks + [Strip(acc.current)], paragraph)
    else if |paragraph| > eff then
      SentenceFold(Acc(Flush(acc.chunks, acc.current), ""), Sentences(paragraph, b), eff)
    else
      Acc(acc.chunks, if acc.current != "" then Strip(acc.current + ParagraphSep + paragraph) else paragraph)
  }

  function ParagraphFold(acc: Acc, paragraphs: seq<string>, eff: nat, b: Boundaries): Acc
    requires eff > 0
    decreases |paragraphs|
  {
    if paragraphs == [] then acc
    else ParagraphStep(ParagraphFold(acc, paragraphs[..|paragraphs| - 1], eff, b), paragraphs[|paragraphs| - 1], eff, b)
  }

  /** The chunks of the slow path, before numbering. */
  function Chunks(text: string, maxLength: int, b: Boundaries): seq<string>
    requires ReserveChars < maxLength
  {
    var acc := ParagraphFold(Acc([], ""), SplitOn(text, ParagraphSep), maxLength - ReserveChars, b);
    Flush(acc.chunks, acc.current)
  }

  /** The marker `"\n\n{i}/{total}"` appended to the i-th of `total` chunks. */
  function NumberSuffix(i: nat, total: nat): string {
    ParagraphSep + NatToString(i) + "/" + NatToString(total)
  }

  /** The numbering comprehension. */
  function Numbered(chunks: seq<string>): (r: seq<string>)
    ensures |r| == |chunks|
  {
    seq(|chunks|, i requires 0 <= i < |chunks| => chunks[i] + NumberSuffix(i + 1, |chunks|))
  }

  /** What `split_text(text, maxLength)` returns. */
  function SplitTextSpec(text: string, maxLength: int, b: Boundaries): seq<string>
    requires Admissible(text, maxLength)
  {
    if |text| <= maxLength then [text]
    else
      var chunks := Chunks(text, maxLength, b);
      if |chunks| > 1 then Numbered(chunks) else chunks
  }

  /** The hard-split `while` loop of one long sentence: the pieces it appends
      to `chunks` and the remainder it leaves in `sentence`. */
  method CutSentence(chunks0: seq<string>, sentence0: string, eff: nat)
    returns (chunks: seq<string>, sentence: string)
    requires eff > 0
    ensures chunks == chunks0 + HardSplit(sentence0, eff).pieces
    ensures sentence == HardSplit(sentence0, eff).rest
  {
    chunks, sentence := chunks0, sentence0;
    ghost var whole := HardSplit(sentence0, eff);
    while |sentence| > eff
      invariant chunks0 + whole.pieces == chunks + HardSplit(sentence, eff).pieces
      invariant HardSplit(sentence, eff).rest == whole.rest
      decreases |sentence|
    {
      ghost var tail := HardSplit(sentence[eff..], eff);
      assert HardSplit(sentence, eff).pieces == [Strip(sentence[..eff])] + tail.pieces;
      assert chunks + ([Strip(sentence[..eff])] + tail.pieces) == chunks + [Strip(sentence[..eff])] + tail.pieces;
      chunks := chunks + [Strip(sentence[..eff])];
      sentence := sentence[eff..];
    }
  }

  /** The `for sentence in sentences` loop over an oversized paragraph. */
  method AddSentences(chunks0: seq<string>, current0: string, sentences: seq<string>, eff: nat)
    returns (chunks: seq<string>, current: string)
    requires eff > 0
    ensures Acc(chunks, current) == SentenceFold(Acc(chunks0, current0), sentences, eff)
  {
    chunks, current := chunks0, current0;
    for j := 0 to |sentences|
      invariant Acc(chunks, current) == SentenceFold(Acc(chunks0, current0), sentences[..j], eff)
    {
      assert sentences[..j + 1][..j] == sentences[..j];
      var sentence := Strip(sentences[j]);
      if sentence != "" {
        if current != "" && |current| + |sentence| + 1 > eff {
          chunks := chunks + [Strip(current)];
          current := sentence;
        } else if |sentence| > eff {
          if current != "" {
            chunks := chunks + [Strip(current)];
            current := "";
          }
          chunks, sentence := CutSentence(chunks, sentence, eff);
          if sentence != "" {
            current := sentence;
          }
        } else {
          current := if current != "" then Strip(current + " " + sentence) else sentence;
        }
      }
    }
    assert sentences[..|sentences|] == sentences;
  }

  /** The `for paragraph in paragraphs` loop, from an empty accumulator. */
  method AddParagraphs(paragraphs: seq<string>, eff: nat, b: Boundaries)
    returns (chunks: seq<string>, current: string)
    requires eff > 0
    ensures Acc(chunks, current) == ParagraphFold(Acc([], ""), paragraphs, eff, b)
  {
    chunks, current := [], "";
    for k := 0 to |paragraphs|
      invariant Acc(chunks, current) == ParagraphFold(Acc([], ""), paragraphs[..k], eff, b)
    {
      assert paragraphs[..k + 1][..k] == paragraphs[..k];
      ghost var acc := Acc(chunks, current);
      var paragraph := Strip(paragraphs[k]);
      if paragraph != "" {
        if current != "" && |current| + |paragraph| + 2 > eff {
          chunks := chunks + [Strip(current)];
          current := paragraph;
        } else if |paragraph| > eff {
          if current != "" {
            chunks := chunks + [Strip(current)];
            current := "";
          }
          assert chunks == Flush(acc.chunks, acc.current);
          chunks, current := AddSentences(chunks, current, Sentences(paragraph, b), eff);
        } else {
          current := if current != "" then Strip(current + ParagraphSep + paragraph) else paragraph;
        }
      }
      assert Acc(chunks, current) == ParagraphStep(acc, paragraphs[k], eff, b);
    }
    assert paragraphs[..|paragraphs|] == paragraphs;
  }

  /** The slow path before numbering: the loop over the paragraphs, then the
      final `if current_chunk: chunks.append(current_chunk.strip())`. */
  method ChunkText(text: string, maxLength: int, b: Boundaries) returns (chunks: seq<string>)
    requires ReserveChars < maxLength
    ensures chunks == Chunks(text, maxLength, b)
  {
    var paragraphs := SplitOn(text, ParagraphSep);
    var eff: nat := maxLength - ReserveChars;
    var current;
    chunks, current := AddParagraphs(paragraphs, eff, b);
    if current != "" {
      chunks := chunks + [Strip(current)];
    }
  }

  /** `split_text` as the source writes it. */
  method SplitText(text: string, maxLength: int, b: Boundaries) returns (chunks: seq<string>)
    requires Admissible(text, maxLength)
    ensures chunks == SplitTextSpec(text, maxLength, b)
  {
    if |text| <= maxLength {
      return [text];
    }
    chunks := ChunkText(text, maxLength, b);
    if |chunks| > 1 {
      chunks := Numbered(chunks);
    }
  }
}
