/**
 * What the splitter promises about the chunks it builds, before numbering:
 * where the hard split cuts, that every chunk is stripped, that chunks
 * delete whitespace only, how long a chunk can get, and that the two copies
 * agree on text without a full-width period.
 */
module ChunkProperties {
  import opened PyStr
  import opened Splitter
  import opened SentenceBoundaries

  // ---------------------------------------------------------------------
  // The hard split

  /** The consecutive full windows of `eff` characters the hard split
      cuts off `s`, before stripping. */
  function Windows(s: string, eff: nat): seq<string>
    requires eff > 0
    decreases |s|
  {
    if |s| > eff then [s[..eff]] + Windows(s[eff..], eff) else []
  }

  /** What the hard split leaves of `s`, without the pieces. */
  function Remainder(s: string, eff: nat): string
    requires eff > 0
    decreases |s|
  {
    if |s| > eff then Remainder(s[eff..], eff) else s
  }

  lemma {:induction false} HardSplitRemainder(s: string, eff: nat)
    requires eff > 0
    ensures HardSplit(s, eff).rest == Remainder(s, eff)
    decreases |s|
  {
    if |s| > eff {
      HardSplitRemainder(s[eff..], eff);
      HardSplitRest(s, eff);
    }
  }

  /** The windows followed by the remainder spell `s`. */
  lemma {:induction false} WindowsSpell(s: string, eff: nat)
    requires eff > 0
    ensures Concat(Windows(s, eff)) + Remainder(s, eff) == s
    decreases |s|
  {
    var ws := Windows(s, eff);
    if |s| > eff {
      var head, t := s[..eff], s[eff..];
      var tws, rest := Windows(t, eff), Remainder(t, eff);
      assert Concat(ws) == head + Concat(tws) by {
        assert ws == [head] + tws;
        ConcatConsFirstPiece(head, tws);
      }
      assert Concat(tws) + rest == t by {
        WindowsSpell(t, eff);
      }
      AppendAssoc(head, Concat(tws), rest);
      assert s == head + t;
    } else {
      assert Concat(ws) == [];
    }
  }

  lemma {:induction false} WindowWidths(s: string, eff: nat)
    requires eff > 0
    ensures forall i :: 0 <= i < |Windows(s, eff)| ==> |Windows(s, eff)[i]| == eff
    decreases |s|
  {
    if |s| > eff {
      var ws, tws := Windows(s, eff), Windows(s[eff..], eff);
      WindowWidths(s[eff..], eff);
      assert ws == [s[..eff]] + tws;
      assert forall i :: 0 < i < |ws| ==> ws[i] == tws[i - 1];
    }
  }

  /** The hard split cuts `s` into consecutive windows of `eff` characters
      and a remainder: piece i is window i stripped, and the windows
      followed by the remainder spell `s`. */
  lemma {:induction false} HardSplitWindows(s: string, eff: nat)
    requires eff > 0
    ensures var c, ws := HardSplit(s, eff), Windows(s, eff);
            |ws| == |c.pieces| && Concat(ws) + c.rest == s &&
            forall i :: 0 <= i < |ws| ==> |ws[i]| == eff && c.pieces[i] == Strip(ws[i])
    decreases |s|
  {
    var c, ws := HardSplit(s, eff), Windows(s, eff);
    WindowsSpell(s, eff);
    HardSplitRemainder(s, eff);
    WindowWidths(s, eff);
    if |s| > eff {
      var tail, tws := HardSplit(s[eff..], eff), Windows(s[eff..], eff);
      HardSplitWindows(s[eff..], eff);
      HardSplitUnfold(s, eff);
      assert ws == [s[..eff]] + tws;
      forall i | 0 < i < |ws| ensures c.pieces[i] == Strip(ws[i]) {
        assert ws[i] == tws[i - 1] && c.pieces[i] == tail.pieces[i - 1];
      }
    }
  }

  /** A non-empty sentence of length n yields `(n - 1) / eff` pieces and a
      remainder of `(n - 1) % eff + 1` characters. */
  lemma HardSplitCount(s: string, eff: nat)
    requires eff > 0 && s != []
    ensures |HardSplit(s, eff).pieces| == (|s| - 1) / eff
    ensures |HardSplit(s, eff).rest| == (|s| - 1) % eff + 1
  {
    var c := HardSplit(s, eff);
    HardSplitLength(s, eff);
    DivisionOf(|s| - 1, eff, |c.pieces|, |c.rest| - 1);
  }

  /** The leftover of a non-empty sentence is its tail from the last
      multiple of `eff` below its length: the loop drops
      `(n - 1) / eff` windows of `eff` characters. */
  lemma HardSplitLeftover(s: string, eff: nat)
    requires eff > 0 && s != []
    ensures var k := (|s| - 1) / eff * eff;
            0 <= k < |s| && HardSplit(s, eff).rest == s[k..]
  {
    var c, ws := HardSplit(s, eff), Windows(s, eff);
    HardSplitWindows(s, eff);
    HardSplitCount(s, eff);
    ConcatWidths(ws, eff);
    assert s == Concat(ws) + c.rest;
    assert s[|Concat(ws)|..] == c.rest;
  }

  /** Strings of `eff` characters each concatenate to `|ws| * eff`. */
  lemma {:induction false} ConcatWidths(ws: seq<string>, eff: nat)
    requires forall i :: 0 <= i < |ws| ==> |ws[i]| == eff
    ensures |Concat(ws)| == |ws| * eff
  {
    if ws != [] {
      ConcatWidths(ws[1..], eff);
      MulSucc(|ws| - 1, eff);
    }
  }

  /** The pieces take `eff` characters each before the remainder. */
  lemma {:induction false} HardSplitLength(s: string, eff: nat)
    requires eff > 0
    ensures |HardSplit(s, eff).pieces| * eff + |HardSplit(s, eff).rest| == |s|
    decreases |s|
  {
    if |s| > eff {
      HardSplitLength(s[eff..], eff);
      HardSplitUnfold(s, eff);
      var n := |HardSplit(s[eff..], eff).pieces|;
      MulSucc(n, eff);
    }
  }

  lemma MulSucc(n: int, d: int)
    ensures (n + 1) * d == n * d + d
  {
  }

  /** `a == q * d + r` with `0 <= r < d` pins down `a / d` and `a % d`. */
  lemma DivisionOf(a: int, d: int, q: int, r: int)
    requires d > 0 && 0 <= r < d && a == q * d + r
    ensures a / d == q && a % d == r
  {
    var q0, r0 := a / d, a % d;
    assert (q - q0) * d == r0 - r by {
      MulSub(q, q0, d);
    }
    if q - q0 >= 1 {
      MulAtLeast(q - q0, d);
    } else if q0 - q >= 1 {
      MulAtLeast(q0 - q, d);
      MulSub(q0, q, d);
    }
  }

  lemma MulSub(x: int, y: int, d: int)
    ensures (x - y) * d == x * d - y * d
  {
  }

  lemma MulAtLeast(k: int, d: int)
    requires k >= 1 && d > 0
    ensures k * d >= d
  {
  }

  /** One round of the hard split. */
  lemma HardSplitUnfold(s: string, eff: nat)
    requires 0 < eff < |s|
    ensures HardSplit(s, eff).pieces == [Strip(s[..eff])] + HardSplit(s[eff..], eff).pieces
    ensures HardSplit(s, eff).rest == HardSplit(s[eff..], eff).rest
  {
  }

  lemma HardSplitRest(s: string, eff: nat)
    requires 0 < eff < |s|
    ensures HardSplit(s, eff).rest == HardSplit(s[eff..], eff).rest
  {
  }

  /** Content of a string cut in two. */
  lemma ContentSplitAt(s: string, k: nat)
    requires k <= |s|
    ensures Content(s) == Content(s[..k]) + Content(s[k..])
  {
    assert s == s[..k] + s[k..];
    ContentAppend(s[..k], s[k..]);
  }

  /** The hard split deletes whitespace only. */
  lemma {:induction false} HardSplitContent(s: string, eff: nat)
    requires eff > 0
    ensures Content(Concat(HardSplit(s, eff).pieces)) + Content(HardSplit(s, eff).rest) == Content(s)
    decreases |s|
  {
    var c := HardSplit(s, eff);
    if |s| > eff {
      var tail := HardSplit(s[eff..], eff);
      var head := Strip(s[..eff]);
      HardSplitContent(s[eff..], eff);
      HardSplitUnfold(s, eff);
      assert c.pieces == [head] + tail.pieces && c.rest == tail.rest;
      ConcatConsFirstPiece(head, tail.pieces);
      assert Concat(c.pieces) == head + Concat(tail.pieces);
      ContentAppend(head, Concat(tail.pieces));
      ContentStrip(s[..eff]);
      ContentSplitAt(s, eff);
      var x, y, z := Content(head), Content(Concat(tail.pieces)), Content(tail.rest);
      AppendAssoc(x, y, z);
    } else {
      assert Concat(c.pieces) == [];
    }
  }

  lemma AppendAssoc(x: string, y: string, z: string)
    ensures x + y + z == x + (y + z)
  {
  }

  lemma ConcatConsFirstPiece(x: string, xs: seq<string>)
    ensures Concat([x] + xs) == x + Concat(xs)
  {
    assert ([x] + xs)[1..] == xs;
  }

  // ---------------------------------------------------------------------
  // Every chunk is stripped

  predicate AllStripped(xs: seq<string>) {
    forall i :: 0 <= i < |xs| ==> IsStripped(xs[i])
  }

  lemma StrippedAppend(xs: seq<string>, ys: seq<string>)
    requires AllStripped(xs) && AllStripped(ys)
    ensures AllStripped(xs + ys)
  {
    forall i | 0 <= i < |xs + ys| ensures IsStripped((xs + ys)[i]) {
      if i >= |xs| { assert (xs + ys)[i] == ys[i - |xs|]; }
    }
  }

  lemma FlushStripped(chunks: seq<string>, current: string)
    requires AllStripped(chunks)
    ensures AllStripped(Flush(chunks, current))
  {
    StrippedAppend(chunks, [Strip(current)]);
  }

  lemma HardSplitStripped(chunks: seq<string>, current: string, sentence: string, eff: nat)
    requires eff > 0 && AllStripped(chunks)
    ensures AllStripped(Flush(chunks, current) + HardSplit(sentence, eff).pieces)
  {
    FlushStripped(chunks, current);
    HardSplitPieces(sentence, eff);
    StrippedAppend(Flush(chunks, current), HardSplit(sentence, eff).pieces);
  }

  lemma SentenceStepStripped(acc: Acc, raw: string, eff: nat)
    requires eff > 0 && AllStripped(acc.chunks)
    ensures AllStripped(SentenceStep(acc, raw, eff).chunks)
  {
    var sentence := Strip(raw);
    var r := SentenceStep(acc, raw, eff);
    if sentence == "" {
    } else if acc.current != "" && |acc.current| + |sentence| + 1 > eff {
      assert r.chunks == acc.chunks + [Strip(acc.current)];
      FlushStripped(acc.chunks, acc.current);
    } else if |sentence| > eff {
      assert r.chunks == Flush(acc.chunks, acc.current) + HardSplit(sentence, eff).pieces;
      HardSplitStripped(acc.chunks, acc.current, sentence, eff);
    } else {
      assert r.chunks == acc.chunks;
    }
  }

  lemma {:induction false} SentenceFoldStripped(acc: Acc, sentences: seq<string>, eff: nat)
    requires eff > 0 && AllStripped(acc.chunks)
    ensures AllStripped(SentenceFold(acc, sentences, eff).chunks)
    decreases |sentences|
  {
    if sentences != [] {
      var n := |sentences| - 1;
      SentenceFoldStripped(acc, sentences[..n], eff);
      SentenceStepStripped(SentenceFold(acc, sentences[..n], eff), sentences[n], eff);
    }
  }

  lemma ParagraphStepStripped(acc: Acc, raw: string, eff: nat, b: Boundaries)
    requires eff > 0 && AllStripped(acc.chunks)
    ensures AllStripped(ParagraphStep(acc, raw, eff, b).chunks)
  {
    var paragraph := Strip(raw);
    var r := ParagraphStep(acc, raw, eff, b);
    if paragraph == "" {
    } else if acc.current != "" && |acc.current| + |paragraph| + 2 > eff {
      assert r.chunks == acc.chunks + [Strip(acc.current)];
      FlushStripped(acc.chunks, acc.current);
    } else if |paragraph| > eff {
      var start := Acc(Flush(acc.chunks, acc.current), "");
      assert r == SentenceFold(start, Sentences(paragraph, b), eff);
      FlushStripped(acc.chunks, acc.current);
      SentenceFoldStripped(start, Sentences(paragraph, b), eff);
    } else {
      assert r.chunks == acc.chunks;
    }
  }

  lemma {:induction false} ParagraphFoldStripped(acc: Acc, paragraphs: seq<string>, eff: nat, b: Boundaries)
    requires eff > 0 && AllStripped(acc.chunks)
    ensures AllStripped(ParagraphFold(acc, paragraphs, eff, b).chunks)
    decreases |paragraphs|
  {
    if paragraphs != [] {
      var n := |paragraphs| - 1;
      ParagraphFoldStripped(acc, paragraphs[..n], eff, b);
      ParagraphStepStripped(ParagraphFold(acc, paragraphs[..n], eff, b), paragraphs[n], eff, b);
    }
  }

  /** Every chunk has had `strip()` applied: none starts or ends with
      whitespace. */
  lemma ChunksStripped(text: string, maxLength: int, b: Boundaries)
    requires ReserveChars < maxLength
    ensures forall i :: 0 <= i < |Chunks(text, maxLength, b)| ==> IsStripped(Chunks(text, maxLength, b)[i])
  {
    var acc := ParagraphFold(Acc([], ""), SplitOn(text, ParagraphSep), maxLength - ReserveChars, b);
    ParagraphFoldStripped(Acc([], ""), SplitOn(text, ParagraphSep), maxLength - ReserveChars, b);
    FlushStripped(acc.chunks, acc.current);
    assert Chunks(text, maxLength, b) == Flush(acc.chunks, acc.current);
  }

  // ---------------------------------------------------------------------
  // Chunks delete whitespace only

  /** The text held by an accumulator, whitespace deleted. */
  function AccContent(acc: Acc): string {
    Content(Concat(acc.chunks)) + Content(acc.current)
  }

  lemma ContentOfSnoc(chunks: seq<string>, x: string)
    ensures Content(Concat(chunks + [x])) == Content(Concat(chunks)) + Content(x)
  {
    ConcatSnoc(chunks, x);
    ContentAppend(Concat(chunks), x);
  }

  /** The content of a list is that of all but its last element, then the
      last. */
  lemma ContentOfConcatLast(xs: seq<string>)
    requires xs != []
    ensures Content(Concat(xs)) == Content(Concat(xs[..|xs| - 1])) + Content(xs[|xs| - 1])
  {
    var init, last := xs[..|xs| - 1], xs[|xs| - 1];
    assert Concat(xs) == Concat(init + [last]) by {
      assert xs == init + [last];
    }
    ContentOfSnoc(init, last);
  }

  lemma FlushContent(chunks: seq<string>, current: string)
    ensures Content(Concat(Flush(chunks, current))) == AccContent(Acc(chunks, current))
  {
    if current != "" {
      ContentOfSnoc(chunks, Strip(current));
      ContentStrip(current);
    } else {
      assert Content(current) == [];
    }
  }

  /** The first branch of either loop: `current` becomes a chunk and the new
      item starts the next one. */
  lemma PushContent(chunks: seq<string>, current: string, next: string)
    ensures AccContent(Acc(chunks + [Strip(current)], next)) == AccContent(Acc(chunks, current)) + Content(next)
  {
    ContentOfSnoc(chunks, Strip(current));
    ContentStrip(current);
    AppendAssoc(Content(Concat(chunks)), Content(current), Content(next));
  }

  /** The hard-split branch. */
  lemma CutContent(chunks: seq<string>, current: string, sentence: string, eff: nat)
    requires eff > 0
    ensures var cut := HardSplit(sentence, eff);
            AccContent(Acc(Flush(chunks, current) + cut.pieces, cut.rest)) == AccContent(Acc(chunks, current)) + Content(sentence)
  {
    var cut := HardSplit(sentence, eff);
    var flushed := Flush(chunks, current);
    ConcatAppend(flushed, cut.pieces);
    ContentAppend(Concat(flushed), Concat(cut.pieces));
    FlushContent(chunks, current);
    HardSplitContent(sentence, eff);
    AppendAssoc(AccContent(Acc(chunks, current)), Content(Concat(cut.pieces)), Content(cut.rest));
  }

  /** The joining branch: the item is appended to `current` after a
      whitespace separator. */
  lemma JoinContent(chunks: seq<string>, current: string, sep: string, next: string)
    requires AllWhitespace(sep)
    ensures AccContent(Acc(chunks, if current != "" then Strip(current + sep + next) else next)) ==
            AccContent(Acc(chunks, current)) + Content(next)
  {
    if current != "" {
      ContentStrip(current + sep + next);
      ContentAppend(current + sep, next);
      ContentAppend(current, sep);
      ContentEmptyIff(sep);
      assert Content(current + sep) == Content(current);
      AppendAssoc(Content(Concat(chunks)), Content(current), Content(next));
    } else {
      assert Content(current) == [];
    }
  }

  lemma SentenceStepContent(acc: Acc, raw: string, eff: nat)
    requires eff > 0
    ensures AccContent(SentenceStep(acc, raw, eff)) == AccContent(acc) + Content(raw)
  {
    var sentence := Strip(raw);
    var r := SentenceStep(acc, raw, eff);
    ContentStrip(raw);
    if sentence == "" {
      assert r == acc && Content(raw) == [];
    } else if acc.current != "" && |acc.current| + |sentence| + 1 > eff {
      assert r == Acc(acc.chunks + [Strip(acc.current)], sentence);
      PushContent(acc.chunks, acc.current, sentence);
    } else if |sentence| > eff {
      var cut := HardSplit(sentence, eff);
      assert r == Acc(Flush(acc.chunks, acc.current) + cut.pieces, cut.rest);
      CutContent(acc.chunks, acc.current, sentence, eff);
    } else {
      assert r == Acc(acc.chunks, if acc.current != "" then Strip(acc.current + " " + sentence) else sentence);
      assert AllWhitespace(" ");
      JoinContent(acc.chunks, acc.current, " ", sentence);
    }
  }

  lemma {:induction false} SentenceFoldContent(acc: Acc, sentences: seq<string>, eff: nat)
    requires eff > 0
    ensures AccContent(SentenceFold(acc, sentences, eff)) == AccContent(acc) + Content(Concat(sentences))
    decreases |sentences|
  {
    if sentences == [] {
      assert Content(Concat(sentences)) == [];
    } else {
      var n := |sentences| - 1;
      var prev := SentenceFold(acc, sentences[..n], eff);
      SentenceFoldContent(acc, sentences[..n], eff);
      SentenceStepContent(prev, sentences[n], eff);
      ContentOfConcatLast(sentences);
      AppendAssoc(AccContent(acc), Content(Concat(sentences[..n])), Content(sentences[n]));
    }
  }

  lemma {:induction false} EraseAppend(a: string, b: string)
    ensures Erase(a + b, '|') == Erase(a, '|') + Erase(b, '|')
    decreases |a|
  {
    if a != [] {
      assert (a + b)[0] == a[0];
      assert (a + b)[1..] == a[1..] + b;
      EraseAppend(a[1..], b);
      AppendAssoc(if a[0] == '|' then [] else [a[0]], Erase(a[1..], '|'), Erase(b, '|'));
    } else {
      assert a + b == b;
    }
  }

  /** Erasing the bars a full-width period gets erases the same as before. */
  lemma {:induction false} EraseBarAfterFullStops(s: string)
    ensures Erase(BarAfterFullStops(s), '|') == Erase(s, '|')
    decreases |s|
  {
    if s != [] {
      EraseBarAfterFullStops(s[1..]);
      var h := if s[0] == FullStop then [FullStop, '|'] else [s[0]];
      assert BarAfterFullStops(s) == h + BarAfterFullStops(s[1..]);
      EraseAppend(h, BarAfterFullStops(s[1..]));
      if s[0] == FullStop {
        assert Erase(['|'], '|') == [] + Erase([], '|');
        assert Erase([FullStop, '|'], '|') == [FullStop] + Erase(['|'], '|');
      }
      assert s == [s[0]] + s[1..];
      assert Erase(s, '|') == (if s[0] == '|' then [] else [s[0]]) + Erase(s[1..], '|');
    }
  }

  /** Marking whitespace with bars and erasing the bars keeps the content of
      a bar-free string. */
  lemma {:induction false} EraseMarksContent(t: string, s: string)
    requires |t| == |s| && '|' !in s
    requires forall i :: 0 <= i < |s| ==> t[i] == s[i] || (t[i] == '|' && IsWhitespace(s[i]))
    ensures Content(Erase(t, '|')) == Content(s)
    decreases |s|
  {
    if s != [] {
      assert s[0] in s;
      assert '|' !in s[1..] by {
        forall c | c in s[1..] ensures c != '|' {
          assert c in s;
        }
      }
      assert forall i :: 0 <= i < |s| - 1 ==> t[1..][i] == t[i + 1] && s[1..][i] == s[i + 1];
      EraseMarksContent(t[1..], s[1..]);
      var h := if t[0] == '|' then [] else [t[0]];
      assert Erase(t, '|') == h + Erase(t[1..], '|');
      ContentAppend(h, Erase(t[1..], '|'));
    }
  }

  /** Cutting a bar-free paragraph into sentences deletes whitespace only. */
  lemma SentencesContent(p: string, b: Boundaries)
    requires '|' !in p
    ensures Content(Concat(Sentences(p, b))) == Content(p)
  {
    var m := BarAfterTerminators(p);
    MarkSentencesReference(p, b);
    SplitOnCharConcat(MarkSentences(p, b), '|');
    if b == TerminatorsAndFullStop {
      EraseBarAfterFullStops(m);
    }
    assert Erase(MarkSentences(p, b), '|') == Erase(m, '|');
    assert forall i :: 0 <= i < |p| ==> m[i] == p[i] || (m[i] == '|' && IsWhitespace(p[i]));
    EraseMarksContent(m, p);
  }

  /** The sentence branch of the paragraph loop. */
  lemma SentencesBranchContent(acc: Acc, paragraph: string, eff: nat, b: Boundaries)
    requires eff > 0 && '|' !in paragraph
    ensures AccContent(SentenceFold(Acc(Flush(acc.chunks, acc.current), ""), Sentences(paragraph, b), eff)) ==
            AccContent(acc) + Content(paragraph)
  {
    var start := Acc(Flush(acc.chunks, acc.current), "");
    SentencesContent(paragraph, b);
    SentenceFoldContent(start, Sentences(paragraph, b), eff);
    FlushContent(acc.chunks, acc.current);
    assert AccContent(start) == AccContent(acc);
  }

  lemma ParagraphStepContent(acc: Acc, raw: string, eff: nat, b: Boundaries)
    requires eff > 0 && '|' !in raw
    ensures AccContent(ParagraphStep(acc, raw, eff, b)) == AccContent(acc) + Content(raw)
  {
    var paragraph := Strip(raw);
    var r := ParagraphStep(acc, raw, eff, b);
    ContentStrip(raw);
    if paragraph == "" {
      assert r == acc && Content(raw) == [];
    } else if acc.current != "" && |acc.current| + |paragraph| + 2 > eff {
      assert r == Acc(acc.chunks + [Strip(acc.current)], paragraph);
      PushContent(acc.chunks, acc.current, paragraph);
    } else if |paragraph| > eff {
      assert r == SentenceFold(Acc(Flush(acc.chunks, acc.current), ""), Sentences(paragraph, b), eff);
      assert '|' !in paragraph by {
        StripChars(raw);
      }
      SentencesBranchContent(acc, paragraph, eff, b);
    } else {
      assert r == Acc(acc.chunks, if acc.current != "" then Strip(acc.current + ParagraphSep + paragraph) else paragraph);
      ParagraphSepIsWhitespace();
      JoinContent(acc.chunks, acc.current, ParagraphSep, paragraph);
    }
  }

  lemma ParagraphFoldLast(acc: Acc, paragraphs: seq<string>, eff: nat, b: Boundaries)
    requires eff > 0 && paragraphs != []
    ensures var n := |paragraphs| - 1;
            ParagraphFold(acc, paragraphs, eff, b) == ParagraphStep(ParagraphFold(acc, paragraphs[..n], eff, b), paragraphs[n], eff, b)
  {
  }

  lemma ParagraphSepIsWhitespace()
    ensures AllWhitespace(ParagraphSep)
  {
  }

  lemma NoBarInPrefix(xs: seq<string>, n: nat)
    requires n <= |xs| && forall k :: 0 <= k < |xs| ==> '|' !in xs[k]
    ensures forall k :: 0 <= k < n ==> '|' !in xs[..n][k]
  {
  }

  lemma {:induction false} ParagraphFoldContent(acc: Acc, paragraphs: seq<string>, eff: nat, b: Boundaries)
    requires eff > 0
    requires forall k :: 0 <= k < |paragraphs| ==> '|' !in paragraphs[k]
    ensures AccContent(ParagraphFold(acc, paragraphs, eff, b)) == AccContent(acc) + Content(Concat(paragraphs))
    decreases |paragraphs|
  {
    if paragraphs == [] {
      assert Content(Concat(paragraphs)) == [];
    } else {
      var n := |paragraphs| - 1;
      var init, last := paragraphs[..n], paragraphs[n];
      var prev := ParagraphFold(acc, init, eff, b);
      ParagraphFoldLast(acc, paragraphs, eff, b);
      NoBarInPrefix(paragraphs, n);
      ParagraphFoldContent(acc, init, eff, b);
      ParagraphStepContent(prev, last, eff, b);
      var x, y, z := AccContent(acc), Content(Concat(init)), Content(last);
      assert AccContent(ParagraphFold(acc, paragraphs, eff, b)) == x + y + z;
      ContentOfConcatLast(paragraphs);
      AppendAssoc(x, y, z);
    }
  }

  /** For text without `'|'` the chunks hold exactly the text's
      non-whitespace characters, in order. */
  lemma ContentPreserved(text: string, maxLength: int, b: Boundaries)
    requires ReserveChars < maxLength && '|' !in text
    ensures Content(Concat(Chunks(text, maxLength, b))) == Content(text)
  {
    var paragraphs := SplitOn(text, ParagraphSep);
    var eff := maxLength - ReserveChars;
    var acc := ParagraphFold(Acc([], ""), paragraphs, eff, b);
    assert Chunks(text, maxLength, b) == Flush(acc.chunks, acc.current);
    assert forall k :: 0 <= k < |paragraphs| ==> '|' !in paragraphs[k] by {
      SplitOnChars(text, ParagraphSep);
    }
    assert Content(Concat(paragraphs)) == Content(text) by {
      ParagraphSepIsWhitespace();
      SplitOnContent(text, ParagraphSep);
    }
    ParagraphFoldContent(Acc([], ""), paragraphs, eff, b);
    FlushContent(acc.chunks, acc.current);
    assert AccContent(Acc([], "")) == [];
  }

  // ---------------------------------------------------------------------
  // How long a chunk can get

  function Max(a: int, b: int): int {
    if a < b then b else a
  }

  /** The length of the longest string of a list. */
  function Longest(xs: seq<string>): nat
    decreases |xs|
  {
    if xs == [] then 0 else Max(Longest(xs[..|xs| - 1]), |xs[|xs| - 1]|)
  }

  lemma {:induction false} LongestBounds(xs: seq<string>)
    ensures forall k :: 0 <= k < |xs| ==> |xs[k]| <= Longest(xs)
    decreases |xs|
  {
    if xs != [] {
      var n := |xs| - 1;
      LongestBounds(xs[..n]);
      forall k | 0 <= k < n ensures |xs[k]| <= Longest(xs) {
        assert xs[..n][k] == xs[k];
      }
    }
  }

  /** Each paragraph stripped. */
  function StripAll(xs: seq<string>): (r: seq<string>)
    ensures |r| == |xs|
  {
    seq(|xs|, i requires 0 <= i < |xs| => Strip(xs[i]))
  }

  /** Every finished chunk and the chunk being built are at most `bound`
      long. */
  predicate Within(acc: Acc, bound: int) {
    |acc.current| <= bound && forall i :: 0 <= i < |acc.chunks| ==> |acc.chunks[i]| <= bound
  }

  lemma WithinAppend(xs: seq<string>, ys: seq<string>, bound: int)
    requires forall i :: 0 <= i < |xs| ==> |xs[i]| <= bound
    requires forall i :: 0 <= i < |ys| ==> |ys[i]| <= bound
    ensures forall i :: 0 <= i < |xs + ys| ==> |(xs + ys)[i]| <= bound
  {
    forall i | 0 <= i < |xs + ys| ensures |(xs + ys)[i]| <= bound {
      if i >= |xs| { assert (xs + ys)[i] == ys[i - |xs|]; }
    }
  }

  lemma FlushWithin(acc: Acc, bound: int)
    requires Within(acc, bound)
    ensures forall i :: 0 <= i < |Flush(acc.chunks, acc.current)| ==> |Flush(acc.chunks, acc.current)[i]| <= bound
  {
    WithinAppend(acc.chunks, [Strip(acc.current)], bound);
  }

  lemma CutWithin(acc: Acc, sentence: string, eff: nat, bound: int)
    requires 0 < eff <= bound && Within(acc, bound)
    ensures Within(Acc(Flush(acc.chunks, acc.current) + HardSplit(sentence, eff).pieces, HardSplit(sentence, eff).rest), bound)
  {
    FlushWithin(acc, bound);
    HardSplitPieces(sentence, eff);
    WithinAppend(Flush(acc.chunks, acc.current), HardSplit(sentence, eff).pieces, bound);
  }

  /** A step of the sentence loop keeps every chunk within `bound`, if the
      sentence fits in it; the joining branch alone keeps within `eff`. */
  lemma SentenceStepWithin(acc: Acc, raw: string, eff: nat, bound: int)
    requires 0 < eff <= bound && |Strip(raw)| <= bound && Within(acc, bound)
    ensures Within(SentenceStep(acc, raw, eff), bound)
  {
    var sentence := Strip(raw);
    var r := SentenceStep(acc, raw, eff);
    if sentence == "" {
    } else if acc.current != "" && |acc.current| + |sentence| + 1 > eff {
      assert r == Acc(acc.chunks + [Strip(acc.current)], sentence);
      FlushWithin(acc, bound);
    } else if |sentence| > eff {
      assert r == Acc(Flush(acc.chunks, acc.current) + HardSplit(sentence, eff).pieces, HardSplit(sentence, eff).rest);
      CutWithin(acc, sentence, eff, bound);
    } else {
      assert r == Acc(acc.chunks, if acc.current != "" then Strip(acc.current + " " + sentence) else sentence);
    }
  }

  lemma {:induction false} SentenceFoldWithin(acc: Acc, sentences: seq<string>, eff: nat, bound: int)
    requires 0 < eff <= bound && Within(acc, bound)
    requires forall k :: 0 <= k < |sentences| ==> |Strip(sentences[k])| <= bound
    ensures Within(SentenceFold(acc, sentences, eff), bound)
    decreases |sentences|
  {
    if sentences != [] {
      var n := |sentences| - 1;
      ShortPrefix(sentences, n, bound);
      SentenceFoldWithin(acc, sentences[..n], eff, bound);
      SentenceStepWithin(SentenceFold(acc, sentences[..n], eff), sentences[n], eff, bound);
    }
  }

  lemma ShortPrefix(xs: seq<string>, n: nat, bound: int)
    requires n <= |xs| && forall k :: 0 <= k < |xs| ==> |Strip(xs[k])| <= bound
    ensures forall k :: 0 <= k < n ==> |Strip(xs[..n][k])| <= bound
  {
  }

  /** A piece of a list is no longer than the list's concatenation. */
  lemma {:induction false} PieceWithinConcat(xs: seq<string>, k: nat)
    requires k < |xs|
    ensures |xs[k]| <= |Concat(xs)|
    decreases |xs|
  {
    if k > 0 {
      PieceWithinConcat(xs[1..], k - 1);
      assert xs[1..][k - 1] == xs[k];
    }
  }

  /** No sentence is longer than its paragraph (the bars that mark sentence
      ends are not part of any sentence). */
  lemma SentencesWithinParagraph(p: string, b: Boundaries)
    ensures forall k :: 0 <= k < |Sentences(p, b)| ==> |Strip(Sentences(p, b)[k])| <= |p|
  {
    var ss := Sentences(p, b);
    var m := BarAfterTerminators(p);
    MarkSentencesReference(p, b);
    SplitOnCharConcat(MarkSentences(p, b), '|');
    if b == TerminatorsAndFullStop {
      EraseBarAfterFullStops(m);
    }
    assert |Concat(ss)| <= |p|;
    forall k | 0 <= k < |ss| ensures |Strip(ss[k])| <= |p| {
      PieceWithinConcat(ss, k);
    }
  }

  lemma ParagraphStepWithin(acc: Acc, raw: string, eff: nat, b: Boundaries, bound: int)
    requires 0 < eff <= bound && |Strip(raw)| <= bound && Within(acc, bound)
    ensures Within(ParagraphStep(acc, raw, eff, b), bound)
  {
    var paragraph := Strip(raw);
    var r := ParagraphStep(acc, raw, eff, b);
    if paragraph == "" {
    } else if acc.current != "" && |acc.current| + |paragraph| + 2 > eff {
      assert r == Acc(acc.chunks + [Strip(acc.current)], paragraph);
      FlushWithin(acc, bound);
    } else if |paragraph| > eff {
      var start := Acc(Flush(acc.chunks, acc.current), "");
      assert r == SentenceFold(start, Sentences(paragraph, b), eff);
      FlushWithin(acc, bound);
      SentencesWithinParagraph(paragraph, b);
      SentenceFoldWithin(start, Sentences(paragraph, b), eff, bound);
    } else {
      assert r == Acc(acc.chunks, if acc.current != "" then Strip(acc.current + ParagraphSep + paragraph) else paragraph);
    }
  }

  lemma {:induction false} ParagraphFoldWithin(acc: Acc, paragraphs: seq<string>, eff: nat, b: Boundaries, bound: int)
    requires 0 < eff <= bound && Within(acc, bound)
    requires forall k :: 0 <= k < |paragraphs| ==> |Strip(paragraphs[k])| <= bound
    ensures Within(ParagraphFold(acc, paragraphs, eff, b), bound)
    decreases |paragraphs|
  {
    if paragraphs != [] {
      var n := |paragraphs| - 1;
      ShortPrefix(paragraphs, n, bound);
      ParagraphFoldWithin(acc, paragraphs[..n], eff, b, bound);
      ParagraphStepWithin(ParagraphFold(acc, paragraphs[..n], eff, b), paragraphs[n], eff, b, bound);
    }
  }

  /** No chunk is longer than `maxLength - 6` or the longest stripped
      paragraph, whichever is larger.  The joining branches keep within
      `maxLength - 6`; a paragraph or sentence that starts a new chunk is
      taken whole, so a long one can exceed it. */
  /** No stripped piece is longer than the longest one. */
  lemma StrippedWithinLongest(xs: seq<string>, bound: int)
    requires Longest(StripAll(xs)) <= bound
    ensures forall k :: 0 <= k < |xs| ==> |Strip(xs[k])| <= bound
  {
    LongestBounds(StripAll(xs));
    assert forall k :: 0 <= k < |xs| ==> StripAll(xs)[k] == Strip(xs[k]);
  }

  lemma ChunkLengthBound(text: string, maxLength: int, b: Boundaries)
    requires ReserveChars < maxLength
    ensures var bound := Max(maxLength - ReserveChars, Longest(StripAll(SplitOn(text, ParagraphSep))));
            forall i :: 0 <= i < |Chunks(text, maxLength, b)| ==> |Chunks(text, maxLength, b)[i]| <= bound
  {
    var paragraphs := SplitOn(text, ParagraphSep);
    var eff := maxLength - ReserveChars;
    var bound := Max(eff, Longest(StripAll(paragraphs)));
    var acc := ParagraphFold(Acc([], ""), paragraphs, eff, b);
    assert Chunks(text, maxLength, b) == Flush(acc.chunks, acc.current);
    assert Within(acc, bound) by {
      StrippedWithinLongest(paragraphs, bound);
      ParagraphFoldWithin(Acc([], ""), paragraphs, eff, b, bound);
    }
    FlushWithin(acc, bound);
  }

  /** When no stripped paragraph is longer than `maxLength - 6`, no chunk
      is either. */
  lemma ChunksWithinBudget(text: string, maxLength: int, b: Boundaries)
    requires ReserveChars < maxLength
    requires Longest(StripAll(SplitOn(text, ParagraphSep))) <= maxLength - ReserveChars
    ensures forall i :: 0 <= i < |Chunks(text, maxLength, b)| ==> |Chunks(text, maxLength, b)[i]| <= maxLength - ReserveChars
  {
    ChunkLengthBound(text, maxLength, b);
  }
}
