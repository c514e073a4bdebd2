/**
 * The handful of Python `str` operations the thread splitter is built from:
 * `str.isspace`, `str.strip()`, `str.split(sep)`, `str.replace(old, new)`
 * and `str(n)` for a natural number; `Join` (`sep.join`) is here only as the
 * inverse of `SplitOn`.  A Python `str` is a sequence of code points and a
 * Dafny `string` a sequence of Unicode scalar values, so `len` is `|s|` and
 * slicing is sequence slicing; the surrogate code points U+D800 to U+DFFF,
 * which a Python `str` can hold on its own, are not representable here.
 */
module PyStr {

  /** The characters for which Python's `str.isspace()` holds, i.e. those that
      a bare `str.strip()` removes. */
  predicate IsWhitespace(c: char) {
    c == ' ' || c == '\t' || c == '\n' || c == '\r' ||
    c == '\U{0B}' || c == '\U{0C}' ||
    ('\U{1C}' <= c <= '\U{1F}') ||
    c == '\U{85}' || c == '\U{A0}' || c == '\U{1680}' ||
    ('\U{2000}' <= c <= '\U{200A}') ||
    c == '\U{2028}' || c == '\U{2029}' || c == '\U{202F}' || c == '\U{205F}' ||
    c == '\U{3000}'
  }

  predicate AllWhitespace(s: string) {
    forall i :: 0 <= i < |s| ==> IsWhitespace(s[i])
  }

  /** A string that `strip()` leaves alone: no whitespace at either end. */
  predicate IsStripped(s: string) {
    s == [] || (!IsWhitespace(s[0]) && !IsWhitespace(s[|s| - 1]))
  }

  /** `s.lstrip()`: the suffix of `s` after its leading whitespace. */
  function TrimLeft(s: string): (r: string)
    ensures |r| <= |s|
    ensures r == [] || !IsWhitespace(r[0])
  {
    if s != [] && IsWhitespace(s[0]) then TrimLeft(s[1..]) else s
  }

  /** `s.rstrip()`: the prefix of `s` before its trailing whitespace. */
  function TrimRight(s: string): (r: string)
    ensures |r| <= |s|
    ensures r == [] || (r[0] == s[0] && !IsWhitespace(r[|r| - 1]))
  {
    if s != [] && IsWhitespace(s[|s| - 1]) then TrimRight(s[..|s| - 1]) else s
  }

  /** `lstrip()` removes only leading whitespace. */
  lemma {:induction false} TrimLeftSlice(s: string)
    ensures |TrimLeft(s)| <= |s| && TrimLeft(s) == s[|s| - |TrimLeft(s)|..]
    ensures AllWhitespace(s[..|s| - |TrimLeft(s)|])
  {
    if s != [] && IsWhitespace(s[0]) {
      var t := s[1..];
      TrimLeftSlice(t);
      var j := |t| - |TrimLeft(t)|;
      assert TrimLeft(s) == TrimLeft(t);
      assert TrimLeft(s) == s[j + 1..] by {
        assert t[j..] == s[j + 1..];
      }
      assert AllWhitespace(s[..j + 1]) by {
        forall i | 0 < i < j + 1 ensures IsWhitespace(s[i]) {
          assert s[i] == t[..j][i - 1];
        }
      }
    }
  }

  /** `rstrip()` removes only trailing whitespace. */
  lemma {:induction false} TrimRightSlice(s: string)
    ensures |TrimRight(s)| <= |s| && TrimRight(s) == s[..|TrimRight(s)|]
    ensures AllWhitespace(s[|TrimRight(s)|..])
  {
    if s != [] && IsWhitespace(s[|s| - 1]) {
      var t := s[..|s| - 1];
      TrimRightSlice(t);
      var j := |TrimRight(t)|;
      assert t[..j] == s[..j];
      assert s[j..] == t[j..] + [s[|s| - 1]];
    }
  }

  /** `s.strip()`: `TrimLeft`, then `TrimRight`. */
  function Strip(s: string): (r: string)
    ensures IsStripped(r) && |r| <= |s|
  {
    TrimRight(TrimLeft(s))
  }

  /** `s.strip()` is a stretch of `s` with only whitespace on either side of
      it; `k` is where it starts. */
  lemma StripSlice(s: string) returns (k: nat)
    ensures k + |Strip(s)| <= |s| && Strip(s) == s[k..k + |Strip(s)|]
    ensures AllWhitespace(s[..k]) && AllWhitespace(s[k + |Strip(s)|..])
  {
    var t := TrimLeft(s);
    var r := TrimRight(t);
    k := |s| - |t|;
    assert t == s[k..] && AllWhitespace(s[..k]) by {
      TrimLeftSlice(s);
    }
    assert r == t[..|r|] && AllWhitespace(t[|r|..]) by {
      TrimRightSlice(t);
    }
    assert Strip(s) == r;
    assert s[k..k + |r|] == r;
    assert s[k + |r|..] == t[|r|..];
  }

  /** What is left of `s` once every whitespace character is deleted. */
  function Content(s: string): (r: string)
    ensures |r| <= |s|
  {
    if s == [] then [] else
      assert s == [s[0]] + s[1..];
      (if IsWhitespace(s[0]) then [] else [s[0]]) + Content(s[1..])
  }

  /** `s` with every occurrence of the character `c` deleted. */
  function Erase(s: string, c: char): (r: string)
    ensures |r| <= |s|
  {
    if s == [] then [] else
      assert s == [s[0]] + s[1..];
      (if s[0] == c then [] else [s[0]]) + Erase(s[1..], c)
  }

  /** `''.join(xs)`. */
  function Concat(xs: seq<string>): string {
    if xs == [] then [] else xs[0] + Concat(xs[1..])
  }

  /** `sep.join(xs)` for a non-empty list, the inverse of `SplitOn`. */
  function Join(xs: seq<string>, sep: string): string
    requires |xs| >= 1
  {
    if |xs| == 1 then xs[0] else xs[0] + sep + Join(xs[1..], sep)
  }

  /** `s.split(sep)` for a non-empty separator: cut at every occurrence of
      `sep`, scanning left to right and never reusing a matched character.
      Joining the pieces with `sep` gives `s` back, and every piece is a
      stretch of `s`, the first one a prefix. */
  function SplitOn(s: string, sep: string): (r: seq<string>)
    requires sep != []
    ensures |r| >= 1
    ensures Join(r, sep) == s
    ensures |r[0]| <= |s| && r[0] == s[..|r[0]|]
    decreases |s|
  {
    if |s| < |sep| then [s]
    else if s[..|sep|] == sep then
      var rest := SplitOn(s[|sep|..], sep);
      assert s == sep + s[|sep|..];
      [""] + rest
    else
      var rest := SplitOn(s[1..], sep);
      JoinConsFirst(s[0], rest, sep);
      assert s == [s[0]] + s[1..];
      assert [s[0]] + rest[0] == s[..1 + |rest[0]|];
      [[s[0]] + rest[0]] + rest[1..]
  }

  /** Putting a character in front of the first piece puts it in front of
      the joined string. */
  lemma JoinConsFirst(c: char, xs: seq<string>, sep: string)
    requires |xs| >= 1
    ensures Join([[c] + xs[0]] + xs[1..], sep) == [c] + Join(xs, sep)
  {
    var ys := [[c] + xs[0]] + xs[1..];
    assert ys[1..] == xs[1..];
  }

  /** `s.replace(pat, sub)` for a non-empty pattern: every occurrence found by
      a left-to-right scan is replaced, matches never overlap. */
  function Replace(s: string, pat: string, sub: string): (r: string)
    requires pat != []
    ensures |pat| == |sub| ==> |r| == |s|
    decreases |s|
  {
    if |s| < |pat| then s
    else if s[..|pat|] == pat then sub + Replace(s[|pat|..], pat, sub)
    else [s[0]] + Replace(s[1..], pat, sub)
  }

  predicate IsDigit(c: char) {
    '0' <= c <= '9'
  }

  function DigitChar(d: nat): (c: char)
    requires d < 10
    ensures IsDigit(c) && c as int - '0' as int == d
  {
    ('0' as int + d) as char
  }

  /** `str(n)` for a natural number: its decimal digits, most significant
      first, without leading zeros. */
  function NatToString(n: nat): (r: string)
    ensures |r| >= 1
    ensures forall i :: 0 <= i < |r| ==> IsDigit(r[i])
    ensures r[0] == '0' ==> n == 0
    decreases n
  {
    if n < 10 then [DigitChar(n)] else NatToString(n / 10) + [DigitChar(n % 10)]
  }

  function DigitValue(c: char): nat
    requires IsDigit(c)
  {
    c as int - '0' as int
  }

  /** `int(s)` for a string of decimal digits. */
  function DecimalValue(s: string): nat
    requires forall i :: 0 <= i < |s| ==> IsDigit(s[i])
  {
    if s == [] then 0 else DecimalValue(s[..|s| - 1]) * 10 + DigitValue(s[|s| - 1])
  }

  // ---------------------------------------------------------------------
  // Facts about the helpers

  lemma {:induction false} ContentAppend(a: string, b: string)
    ensures Content(a + b) == Content(a) + Content(b)
    decreases |a|
  {
    if a != [] {
      var h := if IsWhitespace(a[0]) then [] else [a[0]];
      assert (a + b)[0] == a[0];
      assert (a + b)[1..] == a[1..] + b;
      assert Content(a + b) == h + Content(a[1..] + b);
      ContentAppend(a[1..], b);
      assert Content(a) == h + Content(a[1..]);
    } else {
      assert a + b == b;
    }
  }

  /** A string has no content exactly when it is all whitespace. */
  lemma {:induction false} ContentEmptyIff(s: string)
    ensures Content(s) == [] <==> AllWhitespace(s)
    decreases |s|
  {
    if s != [] {
      ContentEmptyIff(s[1..]);
      if AllWhitespace(s) {
        assert AllWhitespace(s[1..]) by {
          forall i | 0 <= i < |s| - 1 ensures IsWhitespace(s[1..][i]) { assert s[1..][i] == s[i + 1]; }
        }
      }
      if Content(s) == [] {
        forall i | 0 <= i < |s| ensures IsWhitespace(s[i]) {
          if i > 0 { assert s[i] == s[1..][i - 1]; }
        }
      }
    }
  }

  /** A whitespace prefix adds no content. */
  lemma ContentAfterBlank(w: string, r: string)
    requires AllWhitespace(w)
    ensures Content(w + r) == Content(r)
  {
    ContentAppend(w, r);
    ContentEmptyIff(w);
  }

  /** A whitespace suffix adds no content. */
  lemma ContentBeforeBlank(r: string, w: string)
    requires AllWhitespace(w)
    ensures Content(r + w) == Content(r)
  {
    ContentAppend(r, w);
    ContentEmptyIff(w);
  }

  lemma ContentTrimLeft(s: string)
    ensures Content(TrimLeft(s)) == Content(s)
  {
    var r := TrimLeft(s);
    TrimLeftSlice(s);
    var j := |s| - |r|;
    var w := s[..j];
    assert r == s[j..];
    assert s == w + s[j..];
    ContentAfterBlank(w, r);
  }

  lemma ContentTrimRight(s: string)
    ensures Content(TrimRight(s)) == Content(s)
  {
    var r := TrimRight(s);
    TrimRightSlice(s);
    assert s == r + s[|r|..];
    ContentBeforeBlank(r, s[|r|..]);
  }

  /** Stripping deletes whitespace only. */
  lemma ContentStrip(s: string)
    ensures Content(Strip(s)) == Content(s)
  {
    ContentTrimLeft(s);
    ContentTrimRight(TrimLeft(s));
  }

  /** `s.strip()` is empty exactly when `s` is blank. */
  lemma StripEmptyIff(s: string)
    ensures Strip(s) == [] <==> AllWhitespace(s)
  {
    ContentStrip(s);
    ContentEmptyIff(s);
    ContentEmptyIff(Strip(s));
  }

  /** `strip()` leaves a stripped string unchanged, so it is idempotent. */
  lemma StripStripped(s: string)
    requires IsStripped(s)
    ensures Strip(s) == s
  {
    var k := StripSlice(s);
  }

  /** Every character of `s.strip()` is a character of `s`. */
  lemma StripChars(s: string)
    ensures forall c :: c in Strip(s) ==> c in s
  {
    var r := Strip(s);
    var k := StripSlice(s);
    forall c | c in r ensures c in s {
      var i :| 0 <= i < |r| && r[i] == c;
      assert s[k + i] == c;
    }
  }

  lemma {:induction false} ConcatAppend(xs: seq<string>, ys: seq<string>)
    ensures Concat(xs + ys) == Concat(xs) + Concat(ys)
    decreases |xs|
  {
    if xs != [] {
      assert (xs + ys)[1..] == xs[1..] + ys;
      ConcatAppend(xs[1..], ys);
      assert (xs + ys)[0] == xs[0];
      assert Concat(xs + ys) == xs[0] + Concat(xs[1..] + ys);
    } else {
      assert xs + ys == ys;
    }
  }

  lemma ConcatSnoc(xs: seq<string>, x: string)
    ensures Concat(xs + [x]) == Concat(xs) + x
  {
    ConcatAppend(xs, [x]);
    assert Concat([x]) == x + Concat([]);
  }

  /** Splitting on a separator made only of whitespace deletes whitespace
      only. */
  lemma {:induction false} SplitOnContent(s: string, sep: string)
    requires sep != [] && AllWhitespace(sep)
    ensures Content(Concat(SplitOn(s, sep))) == Content(s)
    decreases |s|
  {
    if |s| < |sep| {
      assert Concat([s]) == s + Concat([]) == s;
    } else if s[..|sep|] == sep {
      var rest := SplitOn(s[|sep|..], sep);
      SplitOnContent(s[|sep|..], sep);
      assert SplitOn(s, sep) == [""] + rest;
      assert ([""] + rest)[1..] == rest;
      assert Concat([""] + rest) == "" + Concat(rest);
      assert s == sep + s[|sep|..];
      ContentAppend(sep, s[|sep|..]);
      ContentEmptyIff(sep);
      assert Content(s) == [] + Content(s[|sep|..]) == Content(s[|sep|..]);
      assert Concat([""] + rest) == Concat(rest);
    } else {
      var rest := SplitOn(s[1..], sep);
      SplitOnContent(s[1..], sep);
      ConcatConsFirst(s[0], rest);
      assert s == [s[0]] + s[1..];
      ContentAppend([s[0]], s[1..]);
      ContentAppend([s[0]], Concat(rest));
    }
  }

  /** Gluing a character onto the first piece glues it onto the
      concatenation. */
  lemma ConcatConsFirst(c: char, xs: seq<string>)
    requires |xs| >= 1
    ensures Concat([[c] + xs[0]] + xs[1..]) == [c] + Concat(xs)
  {
    var ys := [[c] + xs[0]] + xs[1..];
    assert ys[1..] == xs[1..];
    assert Concat(xs) == xs[0] + Concat(xs[1..]);
  }

  /** Every character of every piece of `s.split(sep)` is a character of
      `s`. */
  lemma {:induction false} SplitOnChars(s: string, sep: string)
    requires sep != []
    ensures forall i, c :: 0 <= i < |SplitOn(s, sep)| && c in SplitOn(s, sep)[i] ==> c in s
    decreases |s|
  {
    var r := SplitOn(s, sep);
    if |s| < |sep| {
    } else if s[..|sep|] == sep {
      SplitOnChars(s[|sep|..], sep);
      forall i, c | 0 <= i < |r| && c in r[i] ensures c in s {
        if i > 0 {
          assert r[i] == SplitOn(s[|sep|..], sep)[i - 1];
          assert c in s[|sep|..];
        }
      }
    } else {
      var rest := SplitOn(s[1..], sep);
      SplitOnChars(s[1..], sep);
      forall i, c | 0 <= i < |r| && c in r[i] ensures c in s {
        if i > 0 {
          assert r[i] == rest[i];
          assert c in s[1..];
        } else if c != s[0] {
          assert c in rest[0];
          assert c in s[1..];
        }
      }
    }
  }

  /** Splitting on one character and concatenating the pieces deletes that
      character. */
  lemma {:induction false} SplitOnCharConcat(s: string, c: char)
    ensures Concat(SplitOn(s, [c])) == Erase(s, c)
    decreases |s|
  {
    if |s| < 1 {
    } else if s[..1] == [c] {
      SplitOnCharConcat(s[1..], c);
    } else {
      var rest := SplitOn(s[1..], [c]);
      SplitOnCharConcat(s[1..], c);
      assert rest == [rest[0]] + rest[1..];
      assert Concat(rest) == rest[0] + Concat(rest[1..]);
      assert s[0] != c;
    }
  }

  /** No piece of `s.split(c)` contains `c`. */
  lemma {:induction false} SplitOnCharPieces(s: string, c: char)
    ensures forall i :: 0 <= i < |SplitOn(s, [c])| ==> c !in SplitOn(s, [c])[i]
    decreases |s|
  {
    var r := SplitOn(s, [c]);
    if |s| < 1 {
    } else if s[..1] == [c] {
      SplitOnCharPieces(s[1..], c);
      forall i | 0 <= i < |r| ensures c !in r[i] {
        if i > 0 { assert r[i] == SplitOn(s[1..], [c])[i - 1]; }
      }
    } else {
      var rest := SplitOn(s[1..], [c]);
      SplitOnCharPieces(s[1..], c);
      forall i | 0 <= i < |r| ensures c !in r[i] {
        if i > 0 { assert r[i] == rest[i]; } else { assert r[0] == [s[0]] + rest[0]; }
      }
    }
  }

  lemma {:induction false} SplitOnCharPrefix(a: string, c: char, b: string)
    requires c !in a
    ensures SplitOn(a + [c] + b, [c]) == [a] + SplitOn(b, [c])
    decreases |a|
  {
    var s := a + [c] + b;
    if a == [] {
      assert s[..1] == [c];
      assert s[1..] == b;
    } else {
      assert s[..1] != [c] by { assert s[0] == a[0]; }
      assert s[1..] == a[1..] + [c] + b;
      SplitOnCharPrefix(a[1..], c, b);
      assert [s[0]] + a[1..] == a;
    }
  }

  lemma SplitOnCharAbsent(a: string, c: char)
    requires c !in a
    ensures SplitOn(a, [c]) == [a]
  {
    var r := SplitOn(a, [c]);
    SplitOnCharPieces(a, c);
  }

  /** Over one character, `split` is the unique inverse of `join`: any list of
      pieces free of `c` is what splitting their join gives back. */
  lemma {:induction false} SplitOnCharJoin(xs: seq<string>, c: char)
    requires |xs| >= 1
    requires forall i :: 0 <= i < |xs| ==> c !in xs[i]
    ensures SplitOn(Join(xs, [c]), [c]) == xs
    decreases |xs|
  {
    if |xs| == 1 {
      SplitOnCharAbsent(xs[0], c);
    } else {
      SplitOnCharJoin(xs[1..], c);
      SplitOnCharPrefix(xs[0], c, Join(xs[1..], [c]));
      assert xs == [xs[0]] + xs[1..];
    }
  }

  lemma {:induction false} JoinAppend(xs: seq<string>, ys: seq<string>, sep: string)
    requires |xs| >= 1 && |ys| >= 1
    ensures Join(xs + ys, sep) == Join(xs, sep) + sep + Join(ys, sep)
    decreases |xs|
  {
    if |xs| == 1 {
      assert (xs + ys)[1..] == ys;
    } else {
      assert (xs + ys)[1..] == xs[1..] + ys;
      JoinAppend(xs[1..], ys, sep);
    }
  }

  /** Splitting at one occurrence of the separator character first. */
  lemma SplitOnCharAppend(x: string, y: string, c: char)
    ensures SplitOn(x + [c] + y, [c]) == SplitOn(x, [c]) + SplitOn(y, [c])
  {
    var xs, ys := SplitOn(x, [c]), SplitOn(y, [c]);
    SplitOnCharPieces(x, c);
    SplitOnCharPieces(y, c);
    JoinAppend(xs, ys, [c]);
    SplitOnCharJoin(xs + ys, c);
  }

  /** `sep` occurs in `t` starting at index `j`. */
  predicate SepAt(t: string, sep: string, j: int) {
    0 <= j && j + |sep| <= |t| && t[j..j + |sep|] == sep
  }

  predicate SepFree(t: string, sep: string) {
    forall j :: 0 <= j < |t| ==> !SepAt(t, sep, j)
  }

  /** A cut right after `t` is the leftmost one: no occurrence of `sep`
      starts inside `t`, not even one that runs on into the separator
      after it. */
  predicate CutLeftmost(t: string, sep: string) {
    forall j :: 0 <= j < |t| ==> !SepAt(t + sep, sep, j)
  }

  /** `s.split(sep)` cuts at every occurrence of `sep`, scanning left to
      right: no piece contains `sep`, and each cut is at the first
      occurrence after the previous one.  With `Join(SplitOn(s, sep), sep)
      == s` this pins the pieces down; `"\n\n\n"` splits into `""` and
      `"\n"`, not into `"\n"` and `""`. */
  lemma {:induction false} SplitOnCuts(s: string, sep: string)
    requires sep != []
    ensures forall i :: 0 <= i < |SplitOn(s, sep)| ==> SepFree(SplitOn(s, sep)[i], sep)
    ensures forall i :: 0 <= i < |SplitOn(s, sep)| - 1 ==> CutLeftmost(SplitOn(s, sep)[i], sep)
    decreases |s|
  {
    var r := SplitOn(s, sep);
    if |s| < |sep| {
      assert r == [s];
    } else if s[..|sep|] == sep {
      var rest := SplitOn(s[|sep|..], sep);
      SplitOnCuts(s[|sep|..], sep);
      assert r == [""] + rest;
      forall i | 0 < i < |r| ensures r[i] == rest[i - 1] {
      }
    } else {
      var rest := SplitOn(s[1..], sep);
      SplitOnCuts(s[1..], sep);
      var head := [s[0]] + rest[0];
      assert r == [head] + rest[1..];
      assert s == [s[0]] + s[1..];
      assert head == s[..|head|];
      assert !SepAt(head, sep, 0) by {
        if |sep| <= |head| {
          assert head[..|sep|] == s[..|sep|];
        }
      }
      ConsSepFree(s[0], rest[0], sep);
      if |rest| >= 2 {
        assert !SepAt(head + sep, sep, 0) by {
          assert s[1..] == rest[0] + sep + Join(rest[1..], sep);
          assert head + sep == s[..|head| + |sep|];
          assert (head + sep)[..|sep|] == s[..|sep|];
        }
        ConsCutLeftmost(s[0], rest[0], sep);
      }
      forall i | 0 < i < |r| ensures r[i] == rest[i] {
      }
    }
  }

  lemma ConsSepFree(c: char, t: string, sep: string)
    requires SepFree(t, sep) && !SepAt([c] + t, sep, 0)
    ensures SepFree([c] + t, sep)
  {
    forall j | 0 < j < |[c] + t| ensures !SepAt([c] + t, sep, j) {
      if j + |sep| <= |[c] + t| {
        assert ([c] + t)[j..j + |sep|] == t[j - 1..j - 1 + |sep|];
        assert !SepAt(t, sep, j - 1);
      }
    }
  }

  lemma ConsCutLeftmost(c: char, t: string, sep: string)
    requires CutLeftmost(t, sep) && !SepAt([c] + t + sep, sep, 0)
    ensures CutLeftmost([c] + t, sep)
  {
    forall j | 0 < j < |[c] + t| ensures !SepAt([c] + t + sep, sep, j) {
      assert [c] + t + sep == [c] + (t + sep);
      assert ([c] + t + sep)[j..j + |sep|] == (t + sep)[j - 1..j - 1 + |sep|];
      assert !SepAt(t + sep, sep, j - 1);
    }
  }

  lemma {:induction false} DecimalRoundTrip(n: nat)
    ensures DecimalValue(NatToString(n)) == n
    decreases n
  {
    if n >= 10 {
      DecimalRoundTrip(n / 10);
      var r := NatToString(n);
      assert r[..|r| - 1] == NatToString(n / 10);
    }
  }

  function Pow10(k: nat): (p: nat)
    ensures p >= 1
  {
    if k == 0 then 1 else 10 * Pow10(k - 1)
  }

  /** `str(n)` has at most `k` digits exactly when `n < 10^k`. */
  lemma {:induction false} NatToStringLength(n: nat, k: nat)
    requires k >= 1
    ensures |NatToString(n)| <= k <==> n < Pow10(k)
    decreases n
  {
    if n >= 10 {
      if k == 1 {
        assert Pow10(1) == 10;
        assert |NatToString(n)| >= 2;
      } else {
        NatToStringLength(n / 10, k - 1);
      }
    } else {
      assert Pow10(1) == 10;
      PowMono(1, k);
    }
  }

  lemma {:induction false} PowMono(j: nat, k: nat)
    requires j <= k
    ensures Pow10(j) <= Pow10(k)
    decreases k
  {
    if j < k { PowMono(j, k - 1); }
  }
}
