/**
 * The thread markers `"\n\n{i}/{total}"`.  A marker can be read back off a
 * numbered chunk (`ReadMarker`), which gives the numbering its inverse; and
 * the six characters reserved for it cover it only for small threads.
 */
module Numbering {
  import opened PyStr
  import opened Splitter

  datatype Option<T> = None | Some(value: T)

  /** What a numbered chunk says: its text, its position and the thread
      length. */
  datatype Marker = Marker(body: string, index: nat, total: nat)

  /** Where the last `"\n\n"` of `s` starts, if it has one. */
  function LastParagraphSep(s: string): (r: Option<nat>)
    ensures r.Some? ==> r.value + 2 <= |s| && s[r.value..r.value + 2] == ParagraphSep
  {
    if |s| < 2 then None
    else if s[|s| - 2..] == ParagraphSep then Some(|s| - 2)
    else LastParagraphSep(s[..|s| - 1])
  }

  predicate IsNumeral(s: string) {
    s != [] && forall i :: 0 <= i < |s| ==> IsDigit(s[i])
  }

  /** Reads the marker at the end of a chunk: the text after the last
      `"\n\n"` must be two numerals around a `'/'`. */
  function ReadMarker(s: string): Option<Marker> {
    match LastParagraphSep(s)
    case None => None
    case Some(k) =>
      var parts := SplitOn(s[k + 2..], "/");
      if |parts| == 2 && IsNumeral(parts[0]) && IsNumeral(parts[1]) then
        Some(Marker(s[..k], DecimalValue(parts[0]), DecimalValue(parts[1])))
      else None
  }

  /** The last `"\n\n"` is the one before a tail without line feeds. */
  lemma {:induction false} LastParagraphSepBefore(s: string, t: string)
    requires '\n' !in t
    ensures LastParagraphSep(s + ParagraphSep + t) == Some(|s|)
    decreases |t|
  {
    var w := s + ParagraphSep + t;
    if t == [] {
      assert w[|w| - 2..] == ParagraphSep;
    } else {
      assert w[|w| - 1] == t[|t| - 1];
      assert t[|t| - 1] in t;
      assert w[..|w| - 1] == s + ParagraphSep + t[..|t| - 1];
      assert forall c :: c in t[..|t| - 1] ==> c in t;
      LastParagraphSepBefore(s, t[..|t| - 1]);
    }
  }

  /** A numeral contains neither a line feed nor a `'/'`. */
  lemma NumeralChars(d: string)
    requires IsNumeral(d)
    ensures '\n' !in d && '/' !in d
  {
    forall j | 0 <= j < |d| ensures d[j] != '\n' && d[j] != '/' {
      assert IsDigit(d[j]);
    }
  }

  /** The tail of a marker splits at its `'/'` into the two numerals. */
  lemma SplitFraction(d1: string, d2: string)
    requires IsNumeral(d1) && IsNumeral(d2)
    ensures '\n' !in d1 + "/" + d2
    ensures SplitOn(d1 + "/" + d2, "/") == [d1, d2]
  {
    NumeralChars(d1);
    NumeralChars(d2);
    SplitOnCharPrefix(d1, '/', d2);
    SplitOnCharAbsent(d2, '/');
  }

  /** Reading the marker off `body + NumberSuffix(i, total)` gives back
      `body`, `i` and `total`, whatever `body` holds. */
  lemma ReadMarkerOfSuffix(body: string, i: nat, total: nat)
    ensures ReadMarker(body + NumberSuffix(i, total)) == Some(Marker(body, i, total))
  {
    var d1, d2 := NatToString(i), NatToString(total);
    var t := d1 + "/" + d2;
    var s := body + NumberSuffix(i, total);
    var k := |body|;
    assert IsNumeral(d1) && IsNumeral(d2);
    assert LastParagraphSep(s) == Some(k) by {
      assert s == body + ParagraphSep + t;
      SplitFraction(d1, d2);
      LastParagraphSepBefore(body, t);
    }
    assert SplitOn(s[k + 2..], "/") == [d1, d2] by {
      assert s[k + 2..] == t;
      SplitFraction(d1, d2);
    }
    assert s[..k] == body;
    assert DecimalValue(d1) == i && DecimalValue(d2) == total by {
      DecimalRoundTrip(i);
      DecimalRoundTrip(total);
    }
  }

  /** Numbering can be undone: the marker read off the i-th numbered chunk
      gives back the chunk, its 1-based position and the thread length. */
  lemma ReadMarkerOfNumbered(chunks: seq<string>, i: nat)
    requires i < |chunks|
    ensures ReadMarker(Numbered(chunks)[i]) == Some(Marker(chunks[i], i + 1, |chunks|))
  {
    assert Numbered(chunks)[i] == chunks[i] + NumberSuffix(i + 1, |chunks|);
    ReadMarkerOfSuffix(chunks[i], i + 1, |chunks|);
  }

  /** Numbering lengthens the i-th chunk by exactly its marker:
      3 characters plus the digits of `i + 1` and of the thread length. */
  lemma NumberedLength(chunks: seq<string>, i: nat)
    requires i < |chunks|
    ensures |Numbered(chunks)[i]| == |chunks[i]| + 3 + |NatToString(i + 1)| + |NatToString(|chunks|)|
    ensures Numbered(chunks)[i][..|chunks[i]|] == chunks[i]
  {
    var suffix := NumberSuffix(i + 1, |chunks|);
    assert Numbered(chunks)[i] == chunks[i] + suffix;
    assert |suffix| == 3 + |NatToString(i + 1)| + |NatToString(|chunks|)|;
  }

  /** The reserve of six characters holds the marker of chunk `i` of
      `total` exactly when the thread has fewer than 10 chunks, or fewer than
      100 and `i` is a single digit: `"\n\n10/12"` takes 7. */
  lemma SuffixFitsReserveIff(i: nat, total: nat)
    requires 1 <= i <= total
    ensures |NumberSuffix(i, total)| <= ReserveChars <==> total < 10 || (i < 10 && total < 100)
  {
    assert Pow10(1) == 10 && Pow10(2) == 100;
    NatToStringLength(i, 1);
    NatToStringLength(total, 1);
    NatToStringLength(total, 2);
  }

  /** The marker of chunk 10 of 12 overruns the reserve. */
  lemma TwoDigitMarkerOverrunsReserve()
    ensures |NumberSuffix(10, 12)| == 7 > ReserveChars
  {
    assert Pow10(1) == 10 && Pow10(2) == 100;
    NatToStringLength(10, 1);
    NatToStringLength(10, 2);
    NatToStringLength(12, 1);
    NatToStringLength(12, 2);
  }
}
