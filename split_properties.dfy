/**
 * What `split_text` promises about the list of tweets it returns: the fast
 * path, blank text, numbering, when every tweet fits, the agreement of the
 * two copies, and the inputs on which the code falls short of its intent.
 */
module SplitProperties {
  import opened PyStr
  import opened Splitter
  import opened SentenceBoundaries
  import opened Numbering
  import opened ChunkProperties

  /** Text that already fits is returned as the only tweet, untouched. */
  lemma FastPath(text: string, maxLength: int, b: Boundaries)
    requires |text| <= maxLength
    ensures SplitTextSpec(text, maxLength, b) == [text]
  {
  }

  // ---------------------------------------------------------------------
  // Blank text

  lemma BlankPrefix(xs: seq<string>, n: nat)
    requires n <= |xs| && forall k :: 0 <= k < |xs| ==> AllWhitespace(xs[k])
    ensures forall k :: 0 <= k < n ==> AllWhitespace(xs[..n][k])
  {
  }

  /** Blank paragraphs are skipped: the accumulator does not change. */
  lemma {:induction false} BlankParagraphsSkipped(acc: Acc, paragraphs: seq<string>, eff: nat, b: Boundaries)
    requires eff > 0
    requires forall k :: 0 <= k < |paragraphs| ==> AllWhitespace(paragraphs[k])
    ensures ParagraphFold(acc, paragraphs, eff, b) == acc
    decreases |paragraphs|
  {
    if paragraphs != [] {
      var n := |paragraphs| - 1;
      BlankPrefix(paragraphs, n);
      BlankParagraphsSkipped(acc, paragraphs[..n], eff, b);
      StripEmptyIff(paragraphs[n]);
    }
  }

  /** The paragraphs of blank text are blank. */
  lemma BlankParagraphs(text: string)
    requires AllWhitespace(text)
    ensures forall k :: 0 <= k < |SplitOn(text, ParagraphSep)| ==> AllWhitespace(SplitOn(text, ParagraphSep)[k])
  {
    var ps := SplitOn(text, ParagraphSep);
    SplitOnChars(text, ParagraphSep);
    forall k, i | 0 <= k < |ps| && 0 <= i < |ps[k]| ensures IsWhitespace(ps[k][i]) {
      assert ps[k][i] in ps[k];
      assert ps[k][i] in text;
      var j :| 0 <= j < |text| && text[j] == ps[k][i];
    }
  }

  /** Blank text too long for one tweet gives no tweet at all. */
  lemma BlankTextGivesNoTweets(text: string, maxLength: int, b: Boundaries)
    requires ReserveChars < maxLength < |text| && AllWhitespace(text)
    ensures SplitTextSpec(text, maxLength, b) == []
  {
    var paragraphs := SplitOn(text, ParagraphSep);
    var eff := maxLength - ReserveChars;
    var acc := ParagraphFold(Acc([], ""), paragraphs, eff, b);
    assert Chunks(text, maxLength, b) == Flush(acc.chunks, acc.current);
    BlankParagraphs(text);
    BlankParagraphsSkipped(Acc([], ""), paragraphs, eff, b);
  }

  /** For text without `'|'` that is too long for one tweet, the result is
      empty exactly when the text is blank. */
  lemma NoTweetsIffBlank(text: string, maxLength: int, b: Boundaries)
    requires ReserveChars < maxLength < |text| && '|' !in text
    ensures SplitTextSpec(text, maxLength, b) == [] <==> AllWhitespace(text)
  {
    var chunks := Chunks(text, maxLength, b);
    if AllWhitespace(text) {
      BlankTextGivesNoTweets(text, maxLength, b);
    }
    if SplitTextSpec(text, maxLength, b) == [] {
      assert chunks == [];
      ContentPreserved(text, maxLength, b);
      ContentEmptyIff(text);
    }
  }

  // ---------------------------------------------------------------------
  // Numbering

  /** Past the fast path the tweets are the chunks; when there are two or
      more, each carries its marker, which reads back as the chunk, its
      1-based position and the number of chunks. */
  lemma ThreadMarkers(text: string, maxLength: int, b: Boundaries)
    requires ReserveChars < maxLength < |text|
    ensures var chunks, tweets := Chunks(text, maxLength, b), SplitTextSpec(text, maxLength, b);
            |tweets| == |chunks| &&
            (|chunks| <= 1 ==> tweets == chunks) &&
            (|chunks| > 1 ==> forall i :: 0 <= i < |chunks| ==>
               ReadMarker(tweets[i]) == Some(Marker(chunks[i], i + 1, |chunks|)))
  {
    var chunks := Chunks(text, maxLength, b);
    if |chunks| > 1 {
      forall i | 0 <= i < |chunks| ensures ReadMarker(Numbered(chunks)[i]) == Some(Marker(chunks[i], i + 1, |chunks|)) {
        ReadMarkerOfNumbered(chunks, i);
      }
    }
  }

  /** A chunk of at most `maxLength - 6` characters stays within
      `maxLength` once numbered, provided the thread has fewer than 10
      tweets. */
  lemma NumberedTweetFits(chunks: seq<string>, i: nat, maxLength: int)
    requires i < |chunks| < 10 && |chunks[i]| <= maxLength - ReserveChars
    ensures |Numbered(chunks)[i]| <= maxLength
  {
    NumberedLength(chunks, i);
    SuffixFitsReserveIff(i + 1, |chunks|);
    assert |NumberSuffix(i + 1, |chunks|)| == 3 + |NatToString(i + 1)| + |NatToString(|chunks|)|;
  }

  /** Numbering keeps a thread of fewer than 10 chunks, each of at most
      `maxLength - 6` characters, within `maxLength`. */
  lemma NumberedThreadFits(chunks: seq<string>, maxLength: int)
    requires |chunks| < 10
    requires forall i :: 0 <= i < |chunks| ==> |chunks[i]| <= maxLength - ReserveChars
    ensures forall i :: 0 <= i < |chunks| ==> |Numbered(chunks)[i]| <= maxLength
  {
    forall i | 0 <= i < |chunks| ensures |Numbered(chunks)[i]| <= maxLength {
      NumberedTweetFits(chunks, i, maxLength);
    }
  }

  /** Past the fast path, the tweets are the chunks, numbered when there
      are two or more. */
  lemma SlowPath(text: string, maxLength: int, b: Boundaries)
    requires ReserveChars < maxLength < |text|
    ensures var chunks := Chunks(text, maxLength, b);
            SplitTextSpec(text, maxLength, b) == if |chunks| > 1 then Numbered(chunks) else chunks
  {
  }

  /** Every tweet fits in `maxLength` when no stripped paragraph is longer
      than `maxLength - 6` and the thread has fewer than 10 tweets. */
  lemma TweetsFit(text: string, maxLength: int, b: Boundaries)
    requires ReserveChars < maxLength
    requires |text| > maxLength ==>
               Longest(StripAll(SplitOn(text, ParagraphSep))) <= maxLength - ReserveChars &&
               |Chunks(text, maxLength, b)| < 10
    ensures forall i :: 0 <= i < |SplitTextSpec(text, maxLength, b)| ==> |SplitTextSpec(text, maxLength, b)[i]| <= maxLength
  {
    if |text| > maxLength {
      var chunks := Chunks(text, maxLength, b);
      SlowPath(text, maxLength, b);
      ChunksWithinBudget(text, maxLength, b);
      if |chunks| > 1 {
        NumberedThreadFits(chunks, maxLength);
      }
    }
  }

  // ---------------------------------------------------------------------
  // The two copies

  lemma NoFullStopPrefix(xs: seq<string>, n: nat)
    requires n <= |xs| && forall k :: 0 <= k < |xs| ==> FullStop !in xs[k]
    ensures forall k :: 0 <= k < n ==> FullStop !in xs[..n][k]
  {
  }

  lemma ParagraphStepAgree(acc: Acc, raw: string, eff: nat)
    requires eff > 0 && FullStop !in raw
    ensures ParagraphStep(acc, raw, eff, TerminatorsAndFullStop) == ParagraphStep(acc, raw, eff, Terminators)
  {
    StripChars(raw);
    SentencesAgreeWithoutFullStop(Strip(raw));
  }

  lemma {:induction false} ParagraphFoldAgree(acc: Acc, paragraphs: seq<string>, eff: nat)
    requires eff > 0
    requires forall k :: 0 <= k < |paragraphs| ==> FullStop !in paragraphs[k]
    ensures ParagraphFold(acc, paragraphs, eff, TerminatorsAndFullStop) == ParagraphFold(acc, paragraphs, eff, Terminators)
    decreases |paragraphs|
  {
    if paragraphs != [] {
      var n := |paragraphs| - 1;
      NoFullStopPrefix(paragraphs, n);
      ParagraphFoldAgree(acc, paragraphs[..n], eff);
      ParagraphStepAgree(ParagraphFold(acc, paragraphs[..n], eff, Terminators), paragraphs[n], eff);
    }
  }

  /** On text without a full-width period, the copy in test_split.py
      returns what the copy in publish_tweet.py returns. */
  lemma CopiesAgreeWithoutFullStop(text: string, maxLength: int)
    requires Admissible(text, maxLength) && FullStop !in text
    ensures SplitTextSpec(text, maxLength, TerminatorsAndFullStop) == SplitTextSpec(text, maxLength, Terminators)
  {
    if |text| > maxLength {
      assert Chunks(text, maxLength, TerminatorsAndFullStop) == Chunks(text, maxLength, Terminators) by {
        var paragraphs := SplitOn(text, ParagraphSep);
        var eff := maxLength - ReserveChars;
        CharNotInPieces(text, ParagraphSep, FullStop);
        ParagraphFoldAgree(Acc([], ""), paragraphs, eff);
      }
    }
  }

  /** A character missing from `s` is missing from its pieces. */
  lemma CharNotInPieces(s: string, sep: string, c: char)
    requires sep != [] && c !in s
    ensures forall k :: 0 <= k < |SplitOn(s, sep)| ==> c !in SplitOn(s, sep)[k]
  {
    SplitOnChars(s, sep);
  }

  /** With a full-width period the copies cut sentences differently. */
  lemma FullStopSplitsOnlyInTestCopy(x: string, y: string)
    requires ' ' !in x && ' ' !in y && '|' !in x && '|' !in y
    requires FullStop !in x && FullStop !in y
    ensures Sentences(x + [FullStop] + y, TerminatorsAndFullStop) == [x + [FullStop], y]
    ensures Sentences(x + [FullStop] + y, Terminators) == [x + [FullStop] + y]
  {
    var p := x + [FullStop] + y;
    assert ' ' !in p && '|' !in p;
    assert Sentences(p, Terminators) == [p] by {
      assert MarkSentences(p, Terminators) == p by {
        MarkSentencesReference(p, Terminators);
        NoSpaceUnmarked(p);
      }
      SplitOnCharAbsent(p, '|');
    }
    var head := x + [FullStop];
    assert MarkSentences(p, TerminatorsAndFullStop) == head + "|" + y by {
      MarkSentencesReference(p, TerminatorsAndFullStop);
      NoSpaceUnmarked(p);
      FullStopMarked(x, y);
    }
    assert '|' !in head;
    SplitOnCharPrefix(head, '|', y);
    SplitOnCharAbsent(y, '|');
  }

  /** Only the full stop gets a bar after it. */
  lemma FullStopMarked(x: string, y: string)
    requires FullStop !in x && FullStop !in y
    ensures BarAfterFullStops(x + [FullStop] + y) == x + [FullStop] + "|" + y
  {
    var z := [FullStop] + y;
    assert x + [FullStop] + y == x + z;
    BarAfterFullStopsAppend(x, z);
    BarAfterFullStopsAbsent(x);
    assert z[1..] == y;
    BarAfterFullStopsAbsent(y);
  }

  /** Without a space, no terminator is followed by one to mark. */
  lemma NoSpaceUnmarked(p: string)
    requires ' ' !in p
    ensures BarAfterTerminators(p) == p
  {
    forall i | 0 <= i < |p| ensures BarAfterTerminators(p)[i] == p[i] {
      assert p[i] in p;
    }
  }

  // ---------------------------------------------------------------------
  // Where the code falls short of its intent

  /** A paragraph that does not fit after `current_chunk` starts a new
      chunk whole, however long it is: "bcd" becomes a chunk of three
      characters with a budget of one, and its tweet "bcd\n\n2/3" has 8
      characters for a `maxLength` of 7. */
  lemma ParagraphOverrunsBudget()
    ensures Chunks("a\n\nbcd\n\nx", 7, Terminators) == ["a", "bcd", "x"]
    ensures SplitTextSpec("a\n\nbcd\n\nx", 7, Terminators)[1] == "bcd\n\n2/3"
  {
    WitnessChunks();
    SlowPath("a\n\nbcd\n\nx", 7, Terminators);
    WitnessSecondTweet();
  }

  /** The second of three numbered chunks "a", "bcd", "x". */
  lemma WitnessSecondTweet()
    ensures Numbered(["a", "bcd", "x"])[1] == "bcd\n\n2/3"
  {
    var t := Numbered(["a", "bcd", "x"])[1];
    assert NatToString(2) == "2" && NatToString(3) == "3";
    assert t == "bcd" + NumberSuffix(2, 3);
    assert NumberSuffix(2, 3) == "\n\n2/3";
  }

  lemma WitnessChunks()
    ensures Chunks("a\n\nbcd\n\nx", 7, Terminators) == ["a", "bcd", "x"]
  {
    var text := "a\n\nbcd\n\nx";
    var acc := ParagraphFold(Acc([], ""), SplitOn(text, ParagraphSep), 7 - ReserveChars, Terminators);
    assert Chunks(text, 7, Terminators) == Flush(acc.chunks, acc.current);
    assert acc == Acc(["a", "bcd"], "x") by {
      WitnessParagraphs();
      WitnessFold();
    }
    assert Flush(["a", "bcd"], "x") == ["a", "bcd", "x"] by {
      StripStripped("x");
    }
  }

  lemma WitnessParagraphs()
    ensures SplitOn("a\n\nbcd\n\nx", ParagraphSep) == ["a", "bcd", "x"]
  {
    assert "a\n\nbcd\n\nx" == "a" + ParagraphSep + ("bcd" + ParagraphSep + "x");
    SplitThree("a", "bcd", "x");
    NoSepInside("x");
  }

  /** Three pieces without line feeds joined by `"\n\n"` split back. */
  lemma SplitThree(p: string, q: string, r: string)
    requires '\n' !in p && '\n' !in q
    ensures SplitOn(p + ParagraphSep + (q + ParagraphSep + r), ParagraphSep) == [p, q] + SplitOn(r, ParagraphSep)
  {
    SplitOnSepAfter(q, r);
    SplitOnSepAfter(p, q + ParagraphSep + r);
  }

  /** The paragraph loop over "a", "bcd" and "x" with a budget of one. */
  lemma WitnessFold()
    ensures ParagraphFold(Acc([], ""), ["a", "bcd", "x"], 1, Terminators) == Acc(["a", "bcd"], "x")
  {
    var ps := ["a", "bcd", "x"];
    assert ps[..2] == ["a", "bcd"] && ps[..2][..1] == ["a"] && ps[..2][..1][..0] == [];
    WitnessFirstStep();
    WitnessSecondStep();
    WitnessThirdStep();
  }

  lemma WitnessFirstStep()
    ensures ParagraphStep(Acc([], ""), "a", 1, Terminators) == Acc([], "a")
  {
    StripStripped("a");
  }

  lemma WitnessSecondStep()
    ensures ParagraphStep(Acc([], "a"), "bcd", 1, Terminators) == Acc(["a"], "bcd")
  {
    StripStripped("a");
    StripStripped("bcd");
  }

  lemma WitnessThirdStep()
    ensures ParagraphStep(Acc(["a"], "bcd"), "x", 1, Terminators) == Acc(["a", "bcd"], "x")
  {
    StripStripped("bcd");
    StripStripped("x");
  }

  /** A string without a line feed splits into itself. */
  lemma {:induction false} NoSepInside(a: string)
    requires '\n' !in a
    ensures SplitOn(a, ParagraphSep) == [a]
    decreases |a|
  {
    if |a| >= 2 {
      assert a[..2] != ParagraphSep by {
        assert a[0] in a;
      }
      assert '\n' !in a[1..] by {
        forall c | c in a[1..] ensures c != '\n' { assert c in a; }
      }
      NoSepInside(a[1..]);
      assert a == [a[0]] + a[1..];
    }
  }

  /** Splitting `a + "\n\n" + rest` for `a` without a line feed cuts `a`
      off first. */
  lemma {:induction false} SplitOnSepAfter(a: string, rest: string)
    requires '\n' !in a
    ensures SplitOn(a + ParagraphSep + rest, ParagraphSep) == [a] + SplitOn(rest, ParagraphSep)
    decreases |a|
  {
    if a == [] {
      SplitOnSepFront(rest);
      assert a + ParagraphSep + rest == ParagraphSep + rest;
    } else {
      var t := a[1..] + ParagraphSep + rest;
      assert a + ParagraphSep + rest == [a[0]] + t;
      assert a[0] != '\n' by {
        assert a[0] in a;
      }
      SplitOnOtherFront(a[0], t);
      assert '\n' !in a[1..] by {
        forall c | c in a[1..] ensures c != '\n' { assert c in a; }
      }
      SplitOnSepAfter(a[1..], rest);
      assert [a[0]] + a[1..] == a;
    }
  }

  /** A leading `"\n\n"` cuts off an empty piece. */
  lemma SplitOnSepFront(rest: string)
    ensures SplitOn(ParagraphSep + rest, ParagraphSep) == [""] + SplitOn(rest, ParagraphSep)
  {
    var s := ParagraphSep + rest;
    assert s[..2] == ParagraphSep && s[2..] == rest;
  }

  /** A leading character other than a line feed joins the first piece. */
  lemma SplitOnOtherFront(c: char, t: string)
    requires c != '\n'
    ensures var r := SplitOn(t, ParagraphSep);
            SplitOn([c] + t, ParagraphSep) == [[c] + r[0]] + r[1..]
  {
    var s := [c] + t;
    assert s[1..] == t;
    if |s| >= 2 {
      assert s[..2] != ParagraphSep by {
        assert s[0] == c;
      }
    } else {
      assert t == [];
      assert SplitOn(t, ParagraphSep) == [[]];
    }
  }

  /** A sentence that does not fit after `current_chunk` becomes the new
      `current_chunk` whole, skipping the hard split: "bcd" is kept in one
      piece with a budget of one. */
  lemma SentenceOverrunsBudget()
    ensures SentenceStep(Acc([], "a"), "bcd", 1) == Acc(["a"], "bcd")
  {
    StripStripped("a");
    StripStripped("bcd");
  }

  /** A hard-split window holding only whitespace becomes an empty chunk:
      "a b" with a budget of one is cut into "a", "" and the remainder "b". */
  lemma HardSplitEmptyPiece()
    ensures HardSplit("a b", 1) == Cut(["a", ""], "b")
  {
    var s := "a b";
    assert s[..1] == "a" && s[1..] == " b" && s[1..][..1] == " " && s[1..][1..] == "b";
    StripStripped("a");
    StripEmptyIff(" ");
  }

  // ---------------------------------------------------------------------
  // Termination of the hard-split loop

  /** Python's `s[k:]`, where a negative `k` counts from the end. */
  function SliceFrom(s: string, k: int): (r: string)
    ensures |r| <= |s|
  {
    if k >= 0 then (if k <= |s| then s[k..] else [])
    else if -k <= |s| then s[|s| + k..] else s
  }

  /** The sentence after `rounds` rounds of `sentence = sentence[eff:]`. */
  function AfterRounds(s: string, eff: int, rounds: nat): string
    decreases rounds
  {
    if rounds == 0 then s else AfterRounds(SliceFrom(s, eff), eff, rounds - 1)
  }

  /** With `effective_max <= 0` (a `max_length` of 6 or less) the loop
      `while len(sentence) > effective_max` never stops on a non-empty
      sentence: its guard holds after any number of rounds. */
  lemma {:induction false} HardSplitLoopNeverEnds(s: string, eff: int, rounds: nat)
    requires eff <= 0 && s != []
    ensures |AfterRounds(s, eff, rounds)| > eff && AfterRounds(s, eff, rounds) != []
    decreases rounds
  {
    if rounds > 0 {
      var t := SliceFrom(s, eff);
      assert t != [] by {
        if eff < 0 && -eff <= |s| {
          assert |t| == -eff;
        }
      }
      HardSplitLoopNeverEnds(t, eff, rounds - 1);
    }
  }
}
