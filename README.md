# Tweet thread splitter

This project models `split_text`, which turns a long text into a thread of tweets. The function exists twice in the repository:

- `TwitterPublisher.split_text` in `tweet_publisher/scripts/publish_tweet.py`;
- a standalone copy in `tweet_publisher/scripts/test_split.py`.

The model proves what the function promises about the tweets it returns.

The algorithm runs in this order:

1. **Fast path.** Text of at most `max_length` characters is returned as the only tweet.
2. **Paragraphs.** Otherwise the text is cut into paragraphs at `"\n\n"`. Each paragraph is stripped and blank ones are skipped. The rest are packed greedily into chunks, aiming for at most `effective_max = max_length - 6` characters. A paragraph that does not fit after a non-empty `current_chunk` starts the next chunk whole, however long it is (`publish_tweet.py:66-69`).
3. **Sentences.** A paragraph too long for a chunk is cut into sentences by a replace-then-split trick on `'|'`. This happens only when `current_chunk` is empty at that point. The sentences are packed the same way, and a sentence that does not fit after a non-empty `current_chunk` is kept whole (`publish_tweet.py:85-87`).
4. **Hard split.** A sentence still too long, met when `current_chunk` is empty, is cut every `effective_max` characters.
5. **Numbering.** When the thread has more than one chunk, each chunk gets the marker `"\n\n{i}/{total}"`.

The two copies differ only in where a sentence ends. In the copy in `test_split.py`, a sentence also ends right after the full-width period `'。'`.

Modules:

- `PyStr`: the Python `str` operations the splitter uses, stated in Dafny. These are `isspace`, `strip`, `split`, `replace` and `str(n)`. `PyStr.Join` is not used by the splitter; it is the inverse of `split` in the proofs.
- `Splitter`: the algorithm, in two forms.
  - `SplitTextSpec` is a function of the inputs. It folds one step function per loop (`SentenceStep`, `ParagraphStep`) over the sentences and paragraphs, and uses `HardSplit` for the inner `while` loop.
  - `SplitText` is the imperative method. It keeps the source's `chunks` list, its `current_chunk` accumulator and its three nested loops, and is proved to return `SplitTextSpec`. `ChunkText`, `AddParagraphs`, `AddSentences` and `CutSentence` are its loops.
- `PublishTweet` and `TestSplit`: the two copies. Each one fixes the sentence boundaries through the `Boundaries` value.
- `SentenceBoundaries`: where the replace-then-split trick cuts a paragraph.
- `Numbering`: the thread markers, their inverse `ReadMarker`, and how much of the 6-character reserve each marker uses.
- `ChunkProperties`: the chunks before numbering. It covers the hard split, stripping, whitespace-only deletion and length bounds.
- `SplitProperties`: the returned tweets. It covers the fast path, blank text, numbering, when every tweet fits, the agreement of the two copies, termination of the hard-split loop, and concrete inputs on which the code overruns its budget.

## Model

| member | source | states |
|---|---|---|
| Splitter.SplitText | tweet_publisher/scripts/publish_tweet.py:36-114 | The imperative splitter (fast path, paragraph loop, numbering) returns exactly `SplitTextSpec(text, maxLength, b)` |
| Splitter.ChunkText | tweet_publisher/scripts/publish_tweet.py:56-107 | The slow path up to the final flush returns exactly `Chunks(text, maxLength, b)` |
| Splitter.AddParagraphs | tweet_publisher/scripts/publish_tweet.py:57-103 | After the loop over the paragraphs, `chunks` and `current_chunk` are the fold of `ParagraphStep` over the paragraphs from an empty state |
| Splitter.AddSentences | tweet_publisher/scripts/publish_tweet.py:80-101 | After the loop over the sentences, `chunks` and `current_chunk` are the fold of `SentenceStep` over the sentences from the state the loop starts in |
| Splitter.CutSentence | tweet_publisher/scripts/publish_tweet.py:95-97 | The hard-split `while` loop appends exactly the pieces `HardSplit` cuts off and leaves its remainder in `sentence` |
| Splitter.HardSplit | tweet_publisher/scripts/publish_tweet.py:95-99 | The leftover of the hard split fits in `effective_max`, and a non-empty sentence leaves a non-empty leftover |
| Splitter.HardSplitPieces | tweet_publisher/scripts/publish_tweet.py:95-96 | Every piece the hard split appends has at most `effective_max` characters and is stripped |
| Splitter.Flush | tweet_publisher/scripts/publish_tweet.py:106-107 | The stripped `current_chunk` is appended exactly when `current_chunk` is non-empty; otherwise the list is unchanged |
| Splitter.Admissible | tweet_publisher/scripts/publish_tweet.py:49-54 | The calls that return: the fast path, or `max_length > 6`, so that `effective_max > 0` and each round of the loop at line 95 shortens the sentence. `SplitProperties.HardSplitLoopNeverEnds` shows that the loop does not stop otherwise |
| Splitter.MarkSentences | tweet_publisher/scripts/publish_tweet.py:78 | The chained `replace` calls of either copy (`test_split.py:34` adds the full-width period). For the publishing copy they keep the length. `SentenceBoundaries.MarkSentencesReference` states where the marks go |
| Splitter.Sentences | tweet_publisher/scripts/publish_tweet.py:78 | The sentences of a paragraph: the marked paragraph split at the bar character, at least one piece. `SentenceBoundaries.TerminatorBoundaries` states where the cuts fall |
| Splitter.SentenceStep | tweet_publisher/scripts/publish_tweet.py:81-101 | One round of the sentence loop: skip a blank sentence, start a new chunk with the whole sentence when it does not fit after `current_chunk`, hard-split it when too long, or join it with `" "`. `AddSentences` runs it; `ChunkProperties.SentenceStepStripped`, `SentenceStepContent` and `SentenceStepWithin` state what it keeps |
| Splitter.SentenceFold | tweet_publisher/scripts/publish_tweet.py:80-101 | The sentence loop as a fold of `SentenceStep`; `AddSentences` is proved to compute it, and `ChunkProperties.SentenceFoldStripped`, `SentenceFoldContent` and `SentenceFoldWithin` state its invariants |
| Splitter.ParagraphStep | tweet_publisher/scripts/publish_tweet.py:61-103 | One round of the paragraph loop: skip a blank paragraph, start a new chunk with the whole paragraph when it does not fit after `current_chunk`, cut it into sentences when too long, or join it with `"\n\n"`. `ChunkProperties.ParagraphStepStripped`, `ParagraphStepContent` and `ParagraphStepWithin` state what it keeps |
| Splitter.ParagraphFold | tweet_publisher/scripts/publish_tweet.py:60-103 | The paragraph loop as a fold of `ParagraphStep`; `AddParagraphs` is proved to compute it, and `ChunkProperties.ParagraphFoldStripped`, `ParagraphFoldContent` and `ParagraphFoldWithin` state its invariants |
| Splitter.Chunks | tweet_publisher/scripts/publish_tweet.py:56-107 | The chunks before numbering: the paragraph loop over `text.split('\n\n')` and the final flush. `ChunkProperties.ChunksStripped`, `ContentPreserved` and `ChunkLengthBound` state what they satisfy |
| Splitter.NumberSuffix | tweet_publisher/scripts/publish_tweet.py:112 | The marker `"\n\n{i}/{total}"`; `Numbering.ReadMarkerOfSuffix` reads it back and `Numbering.SuffixFitsReserveIff` says when it fits the reserve |
| Splitter.Numbered | tweet_publisher/scripts/publish_tweet.py:110-112 | The numbering comprehension keeps the number of chunks. `Numbering.ReadMarkerOfNumbered` and `Numbering.NumberedLength` state what each numbered tweet holds |
| Splitter.SplitTextSpec | tweet_publisher/scripts/publish_tweet.py:36-114 | What `split_text` returns, as a function: the fast path, else the chunks, numbered when there are more than one. `SplitProperties.FastPath`, `SlowPath`, `ThreadMarkers` and `TweetsFit` state its properties |
| PublishTweet.SplitText | tweet_publisher/scripts/publish_tweet.py:36-114 | `TwitterPublisher.split_text` returns the spec with the boundaries `'! '`, `'? '`, `'. '` |
| TestSplit.SplitText | tweet_publisher/scripts/test_split.py:9-66 | The preview script's `split_text` returns the spec with `'。'` added as a boundary |
| PyStr.Strip | tweet_publisher/scripts/publish_tweet.py:61 | `strip()` returns a string with no whitespace at either end, no longer than its input |
| PyStr.StripSlice | tweet_publisher/scripts/publish_tweet.py:61 | `strip()` returns a contiguous stretch of its input, with only whitespace cut off either side |
| PyStr.StripEmptyIff | tweet_publisher/scripts/publish_tweet.py:61-63 | A stripped paragraph is empty exactly when the paragraph is all whitespace, so exactly blank paragraphs are skipped |
| PyStr.StripStripped | tweet_publisher/scripts/publish_tweet.py:61 | `strip()` leaves an already stripped string unchanged (idempotence) |
| PyStr.ContentStrip | tweet_publisher/scripts/publish_tweet.py:61 | `strip()` deletes whitespace only |
| PyStr.SplitOn | tweet_publisher/scripts/publish_tweet.py:57 | `text.split('\n\n')` yields at least one piece, the pieces joined with the separator give the text back, and the first piece is a prefix |
| PyStr.SplitOnCuts | tweet_publisher/scripts/publish_tweet.py:57 | No piece of `text.split('\n\n')` contains the separator, and every cut is at the leftmost occurrence after the previous one, so `"\n\n\n"` gives `""` and `"\n"`. With the round trip of `SplitOn` this determines the pieces |
| PyStr.SplitOnCharJoin | tweet_publisher/scripts/publish_tweet.py:78 | Splitting on a character inverts joining with it, for pieces free of that character |
| PyStr.SplitOnCharConcat | tweet_publisher/scripts/publish_tweet.py:78 | Splitting on the bar character and concatenating the pieces deletes every bar |
| PyStr.SplitOnCharPieces | tweet_publisher/scripts/publish_tweet.py:78 | No piece of a split at the bar character contains a bar |
| PyStr.SplitOnContent | tweet_publisher/scripts/publish_tweet.py:57 | Splitting at a whitespace separator deletes whitespace only |
| PyStr.Replace | tweet_publisher/scripts/publish_tweet.py:78 | `replace` with a pattern and a replacement of equal length keeps the length |
| PyStr.NatToString | tweet_publisher/scripts/publish_tweet.py:112 | `str(n)` is a non-empty string of decimal digits without a leading zero unless `n == 0` |
| PyStr.DecimalRoundTrip | tweet_publisher/scripts/publish_tweet.py:112 | Reading the decimal digits of `str(n)` gives `n` back |
| PyStr.NatToStringLength | tweet_publisher/scripts/publish_tweet.py:112 | `str(n)` has at most `k` digits exactly when `n < 10^k` |
| PyStr.ContentEmptyIff | tweet_publisher/scripts/publish_tweet.py:61-63 | Deleting whitespace leaves nothing exactly when the string is all whitespace |
| SentenceBoundaries.ReplaceChainMarksTerminators | tweet_publisher/scripts/publish_tweet.py:78 | The three chained `replace` calls turn exactly the spaces that follow `'!'`, `'?'` or `'.'` into bars |
| SentenceBoundaries.ReplaceFullStop | tweet_publisher/scripts/test_split.py:34 | Replacing `'。'` by itself followed by a bar inserts a bar after every full-width period |
| SentenceBoundaries.MarkSentencesReference | tweet_publisher/scripts/test_split.py:34 | The replace chain of either copy equals the direct description of its sentence marks |
| SentenceBoundaries.SentencesAreMarkedSegments | tweet_publisher/scripts/publish_tweet.py:78 | The sentences are the marked paragraph cut at every bar: they join back to it with a bar, and none contains a bar |
| SentenceBoundaries.TerminatorBoundaries | tweet_publisher/scripts/publish_tweet.py:78 | On a paragraph without a bar character, the sentences joined with `" "` give the paragraph back. Every sentence but the last ends with its terminator. No sentence contains a terminator followed by a space, so cuts fall exactly at the terminator spaces, which are dropped |
| SentenceBoundaries.BarCutsSentences | tweet_publisher/scripts/publish_tweet.py:78 | A literal bar character in a paragraph also cuts it into sentences and is deleted |
| SentenceBoundaries.FullStopEndsSentence | tweet_publisher/scripts/test_split.py:34 | In the preview copy a full-width period only ever occurs as the last character of a sentence |
| SentenceBoundaries.SentencesAgreeWithoutFullStop | tweet_publisher/scripts/test_split.py:34 | On a paragraph without `'。'` both copies cut the same sentences |
| Numbering.ReadMarkerOfSuffix | tweet_publisher/scripts/publish_tweet.py:112 | A chunk with the marker for `i` of `total` appended reads back as that chunk, `i` and `total` |
| Numbering.ReadMarkerOfNumbered | tweet_publisher/scripts/publish_tweet.py:110-112 | The i-th numbered tweet reads back as the i-th chunk, position `i + 1` and the number of chunks |
| Numbering.NumberedLength | tweet_publisher/scripts/publish_tweet.py:112 | Numbering keeps the chunk as a prefix and adds exactly `3 + digits(i) + digits(total)` characters |
| Numbering.SuffixFitsReserveIff | tweet_publisher/scripts/publish_tweet.py:47-49 | The marker fits the 6 reserved characters exactly when `total < 10`, or `i < 10` and `total < 100` |
| Numbering.TwoDigitMarkerOverrunsReserve | tweet_publisher/scripts/publish_tweet.py:48-49 | The marker `"\n\n10/12"` has 7 characters, more than the reserve |
| Numbering.LastParagraphSepBefore | tweet_publisher/scripts/publish_tweet.py:112 | The marker's `"\n\n"` is the last one of a numbered tweet |
| Numbering.SplitFraction | tweet_publisher/scripts/publish_tweet.py:112 | The `"{i}/{total}"` part splits back at `'/'` into its two numerals |
| ChunkProperties.HardSplitWindows | tweet_publisher/scripts/publish_tweet.py:95-97 | The hard split cuts consecutive windows of exactly `effective_max` characters, which with the leftover spell the sentence, and each piece is its window stripped |
| ChunkProperties.WindowsSpell | tweet_publisher/scripts/publish_tweet.py:95-97 | The windows followed by the leftover give the sentence back |
| ChunkProperties.HardSplitLeftover | tweet_publisher/scripts/publish_tweet.py:95-99 | The leftover of a non-empty sentence of `n` characters is its tail from index `(n - 1) / effective_max * effective_max` |
| ChunkProperties.HardSplitCount | tweet_publisher/scripts/publish_tweet.py:95-99 | A sentence of `n > 0` characters gives `(n - 1) / effective_max` pieces and a leftover of `(n - 1) % effective_max + 1` characters |
| ChunkProperties.HardSplitLength | tweet_publisher/scripts/publish_tweet.py:95-97 | Pieces times `effective_max` plus the leftover's length is the sentence's length |
| ChunkProperties.HardSplitContent | tweet_publisher/scripts/publish_tweet.py:95-99 | The hard split deletes whitespace only |
| ChunkProperties.ChunksStripped | tweet_publisher/scripts/publish_tweet.py:68-107 | Every chunk before numbering is stripped |
| ChunkProperties.SentenceFoldStripped | tweet_publisher/scripts/publish_tweet.py:85-101 | The sentence loop appends only stripped chunks |
| ChunkProperties.ParagraphFoldStripped | tweet_publisher/scripts/publish_tweet.py:60-103 | The paragraph loop appends only stripped chunks |
| ChunkProperties.SentencesContent | tweet_publisher/scripts/publish_tweet.py:78 | For a paragraph without a bar character, the sentences together hold the paragraph's non-whitespace characters, in order |
| ChunkProperties.SentenceFoldContent | tweet_publisher/scripts/publish_tweet.py:80-101 | The sentence loop keeps, in order, every non-whitespace character of the sentences |
| ChunkProperties.ParagraphFoldContent | tweet_publisher/scripts/publish_tweet.py:60-103 | The paragraph loop keeps, in order, every non-whitespace character of paragraphs without a bar character |
| ChunkProperties.ContentPreserved | tweet_publisher/scripts/publish_tweet.py:56-107 | For text without a bar character, the chunks with whitespace deleted equal the text with whitespace deleted |
| ChunkProperties.SentenceFoldWithin | tweet_publisher/scripts/publish_tweet.py:85-101 | If every stripped sentence and every chunk so far fit a bound of at least `effective_max`, so does everything the sentence loop produces. The `" "` join only grows the chunk while it fits |
| ChunkProperties.ParagraphFoldWithin | tweet_publisher/scripts/publish_tweet.py:66-103 | The same for the paragraph loop, where the `"\n\n"` join only grows the chunk while it fits |
| ChunkProperties.ChunkLengthBound | tweet_publisher/scripts/publish_tweet.py:56-107 | No chunk is longer than the larger of `effective_max` and the longest stripped paragraph |
| ChunkProperties.ChunksWithinBudget | tweet_publisher/scripts/publish_tweet.py:49-107 | When no stripped paragraph exceeds `effective_max`, no chunk does |
| ChunkProperties.LongestBounds | tweet_publisher/scripts/publish_tweet.py:60-61 | The longest stripped paragraph bounds every stripped paragraph |
| SplitProperties.FastPath | tweet_publisher/scripts/publish_tweet.py:53-54 | Text of at most `max_length` characters, blank or empty included, comes back as `[text]` |
| SplitProperties.SlowPath | tweet_publisher/scripts/publish_tweet.py:106-114 | Past the fast path the result is the chunks, numbered exactly when there are more than one |
| SplitProperties.BlankParagraphsSkipped | tweet_publisher/scripts/publish_tweet.py:60-63 | Blank paragraphs leave the state unchanged |
| SplitProperties.BlankParagraphs | tweet_publisher/scripts/publish_tweet.py:57 | Every paragraph of blank text is blank |
| SplitProperties.BlankTextGivesNoTweets | tweet_publisher/scripts/publish_tweet.py:57-114 | Blank text longer than `max_length` gives `[]` |
| SplitProperties.NoTweetsIffBlank | tweet_publisher/scripts/publish_tweet.py:53-114 | For text without a bar character longer than `max_length`, the result is `[]` exactly when the text is blank |
| SplitProperties.ThreadMarkers | tweet_publisher/scripts/publish_tweet.py:110-112 | Past the fast path there are as many tweets as chunks. With one chunk or none the list is unchanged. With more, tweet i reads back as chunk i, position `i + 1` and the chunk count |
| SplitProperties.NumberedTweetFits | tweet_publisher/scripts/publish_tweet.py:47-112 | In a thread of fewer than 10 chunks, a chunk within `effective_max` stays within `max_length` once numbered |
| SplitProperties.NumberedThreadFits | tweet_publisher/scripts/publish_tweet.py:47-112 | Numbering keeps a thread of fewer than 10 chunks within `max_length` when every chunk is within `effective_max` |
| SplitProperties.TweetsFit | tweet_publisher/scripts/publish_tweet.py:36-114 | Every tweet fits in `max_length` when every stripped paragraph fits in `effective_max` and there are fewer than 10 chunks |
| SplitProperties.ParagraphStepAgree | tweet_publisher/scripts/test_split.py:21-57 | On a paragraph without `'。'`, one round of the two copies' paragraph loops does the same thing |
| SplitProperties.ParagraphFoldAgree | tweet_publisher/scripts/test_split.py:21-57 | On paragraphs without `'。'`, the two copies' paragraph loops give the same state |
| SplitProperties.CopiesAgreeWithoutFullStop | tweet_publisher/scripts/test_split.py:9-66 | On text without `'。'` the two copies return the same list |
| SplitProperties.FullStopSplitsOnlyInTestCopy | tweet_publisher/scripts/test_split.py:34 | A full-width period with no space after it ends a sentence in the preview copy, not in the publishing copy |
| SplitProperties.ParagraphOverrunsBudget | tweet_publisher/scripts/publish_tweet.py:66-69 | A paragraph that does not fit after `current_chunk` becomes a chunk whole. With `max_length` 7 the text "a\n\nbcd\n\nx" gives the chunks "a", "bcd", "x", and the tweet "bcd\n\n2/3" of 8 characters |
| SplitProperties.SentenceOverrunsBudget | tweet_publisher/scripts/publish_tweet.py:85-87 | A sentence that does not fit after `current_chunk` becomes `current_chunk` whole, without being hard-split |
| SplitProperties.HardSplitEmptyPiece | tweet_publisher/scripts/publish_tweet.py:96 | A hard-split window of whitespace becomes an empty chunk |
| SplitProperties.HardSplitLoopNeverEnds | tweet_publisher/scripts/publish_tweet.py:95-97 | With `effective_max <= 0`, the loop guard still holds on a non-empty sentence after any number of rounds |

The preview copy's loops are the same as the publishing copy's. These rows cite `publish_tweet.py`; each step's lines in `publish_tweet.py` and the matching lines of `tweet_publisher/scripts/test_split.py` are:

- reserve and `effective_max`: lines 49-50 and lines 11-12.
- fast path: lines 53-54 and lines 14-15.
- paragraph loop: lines 60-75 and lines 21-32.
- sentence split: line 78 and line 34.
- sentence loop: lines 80-101 and lines 36-55.
- hard split: lines 95-99 and lines 49-53.
- final flush: lines 106-107 and lines 59-60.
- numbering: lines 110-112 and lines 62-64.

## Left out

- The network and the command line are not modelled. This covers `TwitterPublisher.__init__`, `publish_single_tweet`, `publish_thread`, `main` and the `__main__` block of the preview script. They call the Twitter API, parse arguments, read files and the environment, and print. None of them changes what `split_text` returns.
- `draw_mermaid/scripts/render_mermaid.py` and `tweet_publisher/scripts/setup_credentials.py` are not part of this model. They are I/O around external tools and interactive input.
- Whitespace is the fixed set of characters for which Python's `str.isspace()` holds, listed in `PyStr.IsWhitespace`. The set is taken as given, not derived from the Unicode database.
- Python strings holding lone surrogate code points (U+D800 to U+DFFF) are not modelled. Dafny characters are Unicode scalar values, which exclude them.
- The default argument `max_length=280` is the constant `Splitter.DefaultMaxLength`. Dafny has no default arguments, so every call passes the length.
- Splitter.SplitText: it requires `max_length > 6` past the fast path, and so do both copies' `SplitText` methods.
  - With `max_length <= 6`, `effective_max <= 0` and the hard-split loop never ends on a non-empty sentence (`SplitProperties.HardSplitLoopNeverEnds`).
  - The source does still return `[]` in that case when every paragraph is made only of whitespace and `'|'`. That corner is not modelled.
- SplitProperties.NoTweetsIffBlank: it requires the text to contain no `'|'`. A paragraph of only `'|'` and whitespace also gives no chunk, because `'|'` is deleted as a sentence boundary.
- ChunkProperties.ContentPreserved: it requires the text to contain no `'|'` for the same reason. Every `'|'` of an oversized paragraph is deleted.
- SplitProperties.TweetsFit: the code does not promise that every tweet fits, so the bound is proved only under its conditions:
  - `SplitProperties.ParagraphOverrunsBudget` and `SentenceOverrunsBudget` show a paragraph or a sentence overrunning `effective_max`;
  - `Numbering.TwoDigitMarkerOverrunsReserve` shows a marker longer than the reserve.
- The comment at `publish_tweet.py:48` says the reserve leaves room for up to 99 tweets. `Numbering.SuffixFitsReserveIff` shows that it covers fewer than 10 tweets, or position 1 to 9 of fewer than 100.
- The `if current_chunk:` tests at `publish_tweet.py:73` and `:90` are kept as written, although `current_chunk` is always empty there.

