/**
 * Where the replace-then-split trick cuts an oversized paragraph into
 * sentences.  The chained `str.replace` calls are shown equal to a direct
 * description of the marks they leave (`ReferenceMarks`), and from that the
 * sentences are characterised: for the publishing copy, on a paragraph
 * without `'|'`, a cut falls exactly at every space that follows `'!'`,
 * `'?'` or `'.'`, the terminator stays with the sentence before it and the
 * space is dropped.
 */
module SentenceBoundaries {
  import opened PyStr
  import opened Splitter

  predicate IsTerminator(c: char) {
    c == '!' || c == '?' || c == '.'
  }

  /** Every space right after the character `a` becomes `'|'`. */
  function BarAfter(s: string, a: char): (r: string)
    ensures |r| == |s|
  {
    seq(|s|, i requires 0 <= i < |s| => if 0 < i && s[i] == ' ' && s[i - 1] == a then '|' else s[i])
  }

  /** Every space right after a terminator becomes `'|'`. */
  function BarAfterTerminators(s: string): (r: string)
    ensures |r| == |s|
  {
    seq(|s|, i requires 0 <= i < |s| => if 0 < i && s[i] == ' ' && IsTerminator(s[i - 1]) then '|' else s[i])
  }

  /** A `'|'` inserted after every full-width period. */
  function BarAfterFullStops(s: string): string {
    if s == [] then [] else (if s[0] == FullStop then [FullStop, '|'] else [s[0]]) + BarAfterFullStops(s[1..])
  }

  /** Where the sentence marks go, stated directly. */
  function ReferenceMarks(paragraph: string, b: Boundaries): string {
    var m := BarAfterTerminators(paragraph);
    if b == TerminatorsAndFullStop then BarAfterFullStops(m) else m
  }

  /** `s.replace(a + ' ', a + '|')` turns each space after `a` into a bar. */
  lemma {:induction false} ReplaceSpaceAfter(s: string, a: char)
    requires a != ' '
    ensures Replace(s, [a, ' '], [a, '|']) == BarAfter(s, a)
    decreases |s|
  {
    var r := Replace(s, [a, ' '], [a, '|']);
    if |s| < 2 {
    } else if s[..2] == [a, ' '] {
      ReplaceSpaceAfter(s[2..], a);
      var t := BarAfter(s[2..], a);
      assert r == [a, '|'] + t;
      forall i | 0 <= i < |s| ensures r[i] == BarAfter(s, a)[i] {
        if i >= 2 { assert r[i] == t[i - 2]; }
      }
    } else {
      ReplaceSpaceAfter(s[1..], a);
      var t := BarAfter(s[1..], a);
      assert r == [s[0]] + t;
      forall i | 0 <= i < |s| ensures r[i] == BarAfter(s, a)[i] {
        if i >= 1 { assert r[i] == t[i - 1]; }
        if i == 1 { assert s[..2] == [s[0], s[1]]; }
      }
    }
  }

  /** `s.replace('。', '。|')` puts a bar after each full-width period. */
  lemma {:induction false} ReplaceFullStop(s: string)
    ensures Replace(s, [FullStop], [FullStop, '|']) == BarAfterFullStops(s)
    decreases |s|
  {
    if s != [] {
      ReplaceFullStop(s[1..]);
      assert s[..1] == [s[0]];
    }
  }

  /** The three chained replaces mark every space after a terminator. */
  lemma ReplaceChainMarksTerminators(p: string)
    ensures Replace(Replace(Replace(p, "! ", "!|"), "? ", "?|"), ". ", ".|") == BarAfterTerminators(p)
  {
    var s1 := Replace(p, "! ", "!|");
    ReplaceSpaceAfter(p, '!');
    var s2 := Replace(s1, "? ", "?|");
    ReplaceSpaceAfter(s1, '?');
    var s3 := Replace(s2, ". ", ".|");
    ReplaceSpaceAfter(s2, '.');
    assert s1 == BarAfter(p, '!') && s2 == BarAfter(s1, '?') && s3 == BarAfter(s2, '.');
    forall i | 0 <= i < |p| ensures s3[i] == BarAfterTerminators(p)[i] {
      if 0 < i {
        assert s1[i - 1] == '?' <==> p[i - 1] == '?';
        assert s2[i - 1] == '.' <==> p[i - 1] == '.';
      }
    }
  }

  /** The marks the source's replaces leave are the reference marks. */
  lemma MarkSentencesReference(paragraph: string, b: Boundaries)
    ensures MarkSentences(paragraph, b) == ReferenceMarks(paragraph, b)
  {
    ReplaceChainMarksTerminators(paragraph);
    if b == TerminatorsAndFullStop {
      ReplaceFullStop(BarAfterTerminators(paragraph));
    }
  }

  /** The sentences are the bar-free stretches between the reference marks:
      joined with `'|'` they give the marked paragraph back, and none holds a
      `'|'`. */
  lemma SentencesAreMarkedSegments(paragraph: string, b: Boundaries)
    ensures Join(Sentences(paragraph, b), "|") == ReferenceMarks(paragraph, b)
    ensures forall k :: 0 <= k < |Sentences(paragraph, b)| ==> '|' !in Sentences(paragraph, b)[k]
  {
    MarkSentencesReference(paragraph, b);
    SplitOnCharPieces(MarkSentences(paragraph, b), '|');
  }

  // ---------------------------------------------------------------------
  // The publishing copy on a paragraph without '|'

  /** Every `'|'` in `m` follows a terminator. */
  predicate BarsFollowTerminators(m: string) {
    forall i :: 0 <= i < |m| && m[i] == '|' ==> 0 < i && IsTerminator(m[i - 1])
  }

  /** No space in `s` follows a terminator. */
  predicate NoTerminatorSpace(s: string) {
    forall i :: 0 < i < |s| ==> !(s[i] == ' ' && IsTerminator(s[i - 1]))
  }

  /** `'|'` read back as a space. */
  function BarsToSpaces(s: string): (r: string)
    ensures |r| == |s|
  {
    seq(|s|, i requires 0 <= i < |s| => if s[i] == '|' then ' ' else s[i])
  }

  lemma BarsToSpacesAppend(a: string, b: string)
    ensures BarsToSpaces(a + b) == BarsToSpaces(a) + BarsToSpaces(b)
  {
    var l, r := BarsToSpaces(a + b), BarsToSpaces(a) + BarsToSpaces(b);
    forall i | 0 <= i < |l| ensures l[i] == r[i] {
      if i >= |a| { assert (a + b)[i] == b[i - |a|]; }
    }
  }

  lemma BarsToSpacesAbsent(s: string)
    requires '|' !in s
    ensures BarsToSpaces(s) == s
  {
    forall i | 0 <= i < |s| ensures BarsToSpaces(s)[i] == s[i] {
      assert s[i] in s;
    }
  }

  /** Reading the bars of a join as spaces joins with spaces. */
  lemma {:induction false} BarsToSpacesJoin(xs: seq<string>)
    requires |xs| >= 1
    requires forall k :: 0 <= k < |xs| ==> '|' !in xs[k]
    ensures BarsToSpaces(Join(xs, "|")) == Join(xs, " ")
    decreases |xs|
  {
    BarsToSpacesAbsent(xs[0]);
    if |xs| > 1 {
      BarsToSpacesJoin(xs[1..]);
      BarsToSpacesAppend(xs[0] + "|", Join(xs[1..], "|"));
      BarsToSpacesAppend(xs[0], "|");
      assert BarsToSpaces("|") == " ";
    }
  }

  /** On a bar-free paragraph the marks are bars after terminators only, and
      none is left out. */
  lemma MarksOfBarFreeParagraph(p: string)
    requires '|' !in p
    ensures BarsFollowTerminators(BarAfterTerminators(p))
    ensures NoTerminatorSpace(BarAfterTerminators(p))
    ensures BarsToSpaces(BarAfterTerminators(p)) == p
  {
    var m := BarAfterTerminators(p);
    forall i | 0 <= i < |m| && m[i] == '|' ensures 0 < i && IsTerminator(m[i - 1]) {
      assert p[i] in p;
    }
    forall i | 0 < i < |m| ensures !(m[i] == ' ' && IsTerminator(m[i - 1])) {
      assert p[i - 1] in p;
    }
    forall i | 0 <= i < |p| ensures BarsToSpaces(m)[i] == p[i] {
      assert p[i] in p;
    }
  }

  /** In a join whose bars all follow terminators, every piece but the last
      is non-empty and ends with a terminator. */
  lemma {:induction false} JoinPiecesEndWithTerminator(xs: seq<string>)
    requires |xs| >= 1
    requires forall k :: 0 <= k < |xs| ==> '|' !in xs[k]
    requires BarsFollowTerminators(Join(xs, "|"))
    ensures forall k :: 0 <= k < |xs| - 1 ==> xs[k] != [] && IsTerminator(xs[k][|xs[k]| - 1])
    decreases |xs|
  {
    if |xs| > 1 {
      var m := Join(xs, "|");
      var rest := Join(xs[1..], "|");
      assert m == xs[0] + "|" + rest;
      var n := |xs[0]|;
      assert m[n] == '|';
      assert n > 0 && m[n - 1] == xs[0][n - 1];
      assert BarsFollowTerminators(rest) by {
        forall j | 0 <= j < |rest| && rest[j] == '|' ensures 0 < j && IsTerminator(rest[j - 1]) {
          assert m[n + 1 + j] == rest[j];
          if j > 0 { assert m[n + j] == rest[j - 1]; }
        }
      }
      JoinPiecesEndWithTerminator(xs[1..]);
      forall k | 1 <= k < |xs| - 1 ensures xs[k] != [] && IsTerminator(xs[k][|xs[k]| - 1]) {
        assert xs[k] == xs[1..][k - 1];
      }
    }
  }

  /** A property of characters and their predecessors that holds in a join
      holds in each of its pieces. */
  lemma {:induction false} JoinPiecesNoTerminatorSpace(xs: seq<string>)
    requires |xs| >= 1
    requires NoTerminatorSpace(Join(xs, "|"))
    ensures forall k :: 0 <= k < |xs| ==> NoTerminatorSpace(xs[k])
    decreases |xs|
  {
    var m := Join(xs, "|");
    if |xs| == 1 {
    } else {
      var rest := Join(xs[1..], "|");
      assert m == xs[0] + "|" + rest;
      var n := |xs[0]|;
      assert NoTerminatorSpace(xs[0]) by {
        forall i | 0 < i < n ensures !(xs[0][i] == ' ' && IsTerminator(xs[0][i - 1])) {
          assert m[i] == xs[0][i] && m[i - 1] == xs[0][i - 1];
        }
      }
      assert NoTerminatorSpace(rest) by {
        forall i | 0 < i < |rest| ensures !(rest[i] == ' ' && IsTerminator(rest[i - 1])) {
          assert m[n + 1 + i] == rest[i] && m[n + i] == rest[i - 1];
        }
      }
      JoinPiecesNoTerminatorSpace(xs[1..]);
      forall k | 1 <= k < |xs| ensures NoTerminatorSpace(xs[k]) {
        assert xs[k] == xs[1..][k - 1];
      }
    }
  }

  /** Sentence boundaries of the publishing copy, for a paragraph without
      `'|'`: the sentences joined with single spaces give the paragraph back,
      every sentence but the last ends with `'!'`, `'?'` or `'.'`, and no
      sentence holds a terminator followed by a space.  So the paragraph is
      cut at exactly the spaces after terminators, which are dropped, and a
      `'。'` is an ordinary character. */
  lemma TerminatorBoundaries(p: string)
    requires '|' !in p
    ensures Join(Sentences(p, Terminators), " ") == p
    ensures forall k :: 0 <= k < |Sentences(p, Terminators)| - 1 ==>
              var s := Sentences(p, Terminators)[k]; s != [] && IsTerminator(s[|s| - 1])
    ensures forall k :: 0 <= k < |Sentences(p, Terminators)| ==> NoTerminatorSpace(Sentences(p, Terminators)[k])
  {
    var ss := Sentences(p, Terminators);
    SentencesAreMarkedSegments(p, Terminators);
    MarksOfBarFreeParagraph(p);
    BarsToSpacesJoin(ss);
    JoinPiecesEndWithTerminator(ss);
    JoinPiecesNoTerminatorSpace(ss);
  }

  lemma BarAfterTerminatorsAtBar(a: string, c: string)
    ensures BarAfterTerminators(a + "|" + c) == BarAfterTerminators(a) + "|" + BarAfterTerminators(c)
  {
    var s := a + "|" + c;
    var l, r := BarAfterTerminators(s), BarAfterTerminators(a) + "|" + BarAfterTerminators(c);
    forall i | 0 <= i < |s| ensures l[i] == r[i] {
      if i < |a| {
        assert s[i] == a[i];
        if 0 < i { assert s[i - 1] == a[i - 1]; }
      } else if i > |a| {
        assert s[i] == c[i - |a| - 1];
        if i > |a| + 1 { assert s[i - 1] == c[i - |a| - 2]; }
      }
    }
  }

  lemma {:induction false} BarAfterFullStopsAppend(x: string, y: string)
    ensures BarAfterFullStops(x + y) == BarAfterFullStops(x) + BarAfterFullStops(y)
    decreases |x|
  {
    if x == [] {
      assert x + y == y;
    } else {
      assert (x + y)[0] == x[0] && (x + y)[1..] == x[1..] + y;
      BarAfterFullStopsAppend(x[1..], y);
    }
  }

  /** A `'|'` already in a paragraph cuts it too, and is dropped: the
      sentences of `a + "|" + c` are those of `a` followed by those of `c`. */
  lemma BarCutsSentences(a: string, c: string, b: Boundaries)
    ensures Sentences(a + "|" + c, b) == Sentences(a, b) + Sentences(c, b)
  {
    MarkSentencesReference(a + "|" + c, b);
    MarkSentencesReference(a, b);
    MarkSentencesReference(c, b);
    BarAfterTerminatorsAtBar(a, c);
    var ma, mc := BarAfterTerminators(a), BarAfterTerminators(c);
    if b == TerminatorsAndFullStop {
      BarAfterFullStopsAppend(ma + "|", mc);
      BarAfterFullStopsAppend(ma, "|");
      assert BarAfterFullStops("|") == "|" by {
        assert "|"[1..] == [];
      }
    }
    SplitOnCharAppend(MarkSentences(a, b), MarkSentences(c, b), '|');
  }

  // ---------------------------------------------------------------------
  // The preview copy: the full-width period

  /** Every full-width period in `m` is followed by a `'|'`. */
  predicate FullStopsFollowedByBar(m: string) {
    forall i :: 0 <= i < |m| && m[i] == FullStop ==> i + 1 < |m| && m[i + 1] == '|'
  }

  lemma {:induction false} BarAfterFullStopsMarks(s: string)
    ensures FullStopsFollowedByBar(BarAfterFullStops(s))
    decreases |s|
  {
    if s != [] {
      BarAfterFullStopsMarks(s[1..]);
      var h := if s[0] == FullStop then [FullStop, '|'] else [s[0]];
      var t := BarAfterFullStops(s[1..]);
      forall i | 0 <= i < |h + t| && (h + t)[i] == FullStop ensures i + 1 < |h + t| && (h + t)[i + 1] == '|' {
        if i >= |h| { assert (h + t)[i] == t[i - |h|]; assert (h + t)[i + 1] == t[i + 1 - |h|]; }
      }
    }
  }

  lemma {:induction false} JoinPiecesFullStopLast(xs: seq<string>)
    requires |xs| >= 1
    requires forall k :: 0 <= k < |xs| ==> '|' !in xs[k]
    requires FullStopsFollowedByBar(Join(xs, "|"))
    ensures forall k, i :: 0 <= k < |xs| && 0 <= i < |xs[k]| && xs[k][i] == FullStop ==> i == |xs[k]| - 1
    decreases |xs|
  {
    var m := Join(xs, "|");
    var n := |xs[0]|;
    var rest := if |xs| > 1 then Join(xs[1..], "|") else [];
    if |xs| > 1 {
      assert m == xs[0] + "|" + rest;
      assert FullStopsFollowedByBar(rest) by {
        forall j | 0 <= j < |rest| && rest[j] == FullStop ensures j + 1 < |rest| && rest[j + 1] == '|' {
          assert m[n + 1 + j] == rest[j];
          assert m[n + 2 + j] == '|';
        }
      }
      JoinPiecesFullStopLast(xs[1..]);
    }
    forall k, i | 0 <= k < |xs| && 0 <= i < |xs[k]| && xs[k][i] == FullStop ensures i == |xs[k]| - 1 {
      if k > 0 {
        assert xs[k] == xs[1..][k - 1];
      } else {
        assert forall j :: 0 <= j < n ==> m[j] == xs[0][j] && m[j] != '|' by {
          forall j | 0 <= j < n ensures m[j] == xs[0][j] && m[j] != '|' {
            assert xs[0][j] in xs[0];
          }
        }
        assert m[i] == FullStop;
        assert i + 1 < |m| && m[i + 1] == '|';
        assert i + 1 >= n;
      }
    }
  }

  /** In the preview copy a full-width period always ends its sentence: it
      can only be the last character of a sentence. */
  lemma FullStopEndsSentence(p: string)
    ensures var ss := Sentences(p, TerminatorsAndFullStop);
            forall k, i :: 0 <= k < |ss| && 0 <= i < |ss[k]| && ss[k][i] == FullStop ==> i == |ss[k]| - 1
  {
    SentencesAreMarkedSegments(p, TerminatorsAndFullStop);
    BarAfterFullStopsMarks(BarAfterTerminators(p));
    JoinPiecesFullStopLast(Sentences(p, TerminatorsAndFullStop));
  }

  lemma {:induction false} BarAfterFullStopsAbsent(s: string)
    requires FullStop !in s
    ensures BarAfterFullStops(s) == s
    decreases |s|
  {
    if s != [] {
      assert s[0] in s;
      assert forall c :: c in s[1..] ==> c in s;
      BarAfterFullStopsAbsent(s[1..]);
      assert s == [s[0]] + s[1..];
    }
  }

  /** Without a full-width period the two copies cut a paragraph alike. */
  lemma SentencesAgreeWithoutFullStop(p: string)
    requires FullStop !in p
    ensures Sentences(p, TerminatorsAndFullStop) == Sentences(p, Terminators)
  {
    MarkSentencesReference(p, Terminators);
    MarkSentencesReference(p, TerminatorsAndFullStop);
    var m := BarAfterTerminators(p);
    assert FullStop !in m by {
      forall i | 0 <= i < |m| ensures m[i] != FullStop { assert p[i] in p; }
    }
    BarAfterFullStopsAbsent(m);
  }
}
