/**
 Character-level helpers standing in for the Python string operations the
 query pipeline uses: `str.lower`, the `\w+` token pattern, `str.strip`,
 substring search (`a in b`) and `str()` of an integer. Only the ASCII part of
 each operation is modelled; the Unicode tables are not.
 */
module Text {

  predicate IsUpper(c: char) {
    'A' <= c <= 'Z'
  }

  /** `c.lower()` restricted to ASCII letters. */
  function LowerChar(c: char): char {
    if IsUpper(c) then (c as int + 32) as char else c
  }

  /** `s.lower()`: a character-by-character map, so lengths agree. */
  function Lower(s: string): (r: string)
    ensures |r| == |s|
    ensures forall i :: 0 <= i < |s| ==> r[i] == LowerChar(s[i])
  {
    seq(|s|, i requires 0 <= i < |s| => LowerChar(s[i]))
  }

  /** Membership in the `\w` class: letters, digits and the underscore. */
  predicate IsWordChar(c: char) {
    ('a' <= c <= 'z') || ('A' <= c <= 'Z') || ('0' <= c <= '9') || c == '_'
  }

  /** Lower-casing never turns a separator into a word character or back. */
  lemma LowerKeepsWordChars(c: char)
    ensures IsWordChar(LowerChar(c)) == IsWordChar(c)
  {
  }

  /** Length of the run of word characters that starts `s`. */
  function RunLength(s: string): (n: nat)
    ensures n <= |s|
    ensures forall i :: 0 <= i < n ==> IsWordChar(s[i])
    ensures n < |s| ==> !IsWordChar(s[n])
  {
    if s == [] || !IsWordChar(s[0]) then 0 else 1 + RunLength(s[1..])
  }

  /** The maximal runs of word characters of `s`, left to right (`re.findall(r"\w+", s)`). */
  function Runs(s: string): (r: seq<string>)
    ensures forall t :: t in r ==> |t| > 0
    ensures forall t, i :: t in r && 0 <= i < |t| ==> IsWordChar(t[i])
    ensures r == [] <==> forall i :: 0 <= i < |s| ==> !IsWordChar(s[i])
    decreases |s|
  {
    if s == [] then []
    else if !IsWordChar(s[0]) then
      Runs(s[1..])
    else
      var n := RunLength(s);
      [s[..n]] + Runs(s[n..])
  }

  /** `t` is a maximal run of word characters of `s` starting at index `i`:
      it occurs there, and the characters on either side, if any, are not
      word characters. */
  predicate MaximalRunAt(s: string, t: string, i: int) {
    OccursAt(s, t, i) && |t| > 0
    && (forall k :: 0 <= k < |t| ==> IsWordChar(t[k]))
    && (i == 0 || !IsWordChar(s[i - 1]))
    && (i + |t| == |s| || !IsWordChar(s[i + |t|]))
  }

  function Shift(p: seq<int>, d: int): (r: seq<int>)
    ensures |r| == |p|
    ensures forall k :: 0 <= k < |p| ==> r[k] == p[k] + d
  {
    seq(|p|, k requires 0 <= k < |p| => p[k] + d)
  }

  /** Where each token of `Runs(s)` starts in `s`. */
  function RunStarts(s: string): seq<int>
    decreases |s|
  {
    if s == [] then []
    else if !IsWordChar(s[0]) then
      Shift(RunStarts(s[1..]), 1)
    else
      var n := RunLength(s);
      [0] + Shift(RunStarts(s[n..]), n)
  }

  /** `r` are maximal runs of `s` found at the starts `p`, left to right,
      no two of them touching. */
  predicate RunsAt(s: string, r: seq<string>, p: seq<int>) {
    |p| == |r|
    && (forall k :: 0 <= k < |r| ==> MaximalRunAt(s, r[k], p[k]))
    && (forall k :: 0 <= k < |p| - 1 ==> p[k] + |r[k]| < p[k + 1])
  }

  /** A maximal run of the suffix `s[d..]` is one of `s` as well, provided
      the character before the suffix does not glue onto it. */
  lemma ShiftMaximal(s: string, d: nat, t: string, i: int)
    requires d <= |s|
    requires MaximalRunAt(s[d..], t, i)
    requires i > 0 || d == 0 || !IsWordChar(s[d - 1])
    ensures MaximalRunAt(s, t, i + d)
  {
    assert s[i + d..i + d + |t|] == s[d..][i..i + |t|];
  }

  /** Runs of `s[1..]` are runs of `s` when `s[0]` is a separator. */
  lemma SkipStep(s: string, r: seq<string>, p: seq<int>)
    requires s != [] && !IsWordChar(s[0])
    requires RunsAt(s[1..], r, p)
    ensures RunsAt(s, r, Shift(p, 1))
  {
    forall k | 0 <= k < |r|
      ensures MaximalRunAt(s, r[k], p[k] + 1)
    {
      ShiftMaximal(s, 1, r[k], p[k]);
    }
  }

  /** The leading run `s[..n]` followed by the runs of `s[n..]` are runs of `s`. */
  lemma TakeStep(s: string, n: nat, r: seq<string>, p: seq<int>)
    requires 0 < n <= |s|
    requires forall i :: 0 <= i < n ==> IsWordChar(s[i])
    requires n < |s| ==> !IsWordChar(s[n])
    requires RunsAt(s[n..], r, p)
    ensures RunsAt(s, [s[..n]] + r, [0] + Shift(p, n))
  {
    assert MaximalRunAt(s, s[..n], 0);
    if |r| > 0 {
      assert MaximalRunAt(s[n..], r[0], p[0]);
      assert s[n..][p[0]] == r[0][0];
      assert p[0] > 0;
    }
    forall k | 0 <= k < |r|
      ensures MaximalRunAt(s, r[k], p[k] + n)
    {
      if k > 0 {
        StartsIncrease(r, p, k);
      }
      ShiftMaximal(s, n, r[k], p[k]);
    }
  }

  lemma {:induction false} StartsIncrease(r: seq<string>, p: seq<int>, k: nat)
    requires |p| == |r| && k < |p|
    requires forall j :: 0 <= j < |p| - 1 ==> p[j] + |r[j]| < p[j + 1]
    ensures p[0] <= p[k]
  {
    if k > 0 {
      StartsIncrease(r, p, k - 1);
    }
  }

  /** Every token of `Runs(s)` is a maximal run of word characters found
      in `s`, the tokens appear in the order of their positions, and no two
      of them touch. Together with `RunsKeepWordChars` this says the
      tokens are exactly the maximal runs of `s`, left to right. */
  lemma {:induction false} RunsAreMaximal(s: string)
    ensures RunsAt(s, Runs(s), RunStarts(s))
    decreases |s|
  {
    if s == [] {
    } else if !IsWordChar(s[0]) {
      RunsAreMaximal(s[1..]);
      SkipStep(s, Runs(s[1..]), RunStarts(s[1..]));
    } else {
      var n := RunLength(s);
      RunsAreMaximal(s[n..]);
      TakeStep(s, n, Runs(s[n..]), RunStarts(s[n..]));
    }
  }

  /** Every character of a token is a character of the tokenised string. */
  lemma RunsKeepChars(s: string, t: string, i: int)
    requires t in Runs(s) && 0 <= i < |t|
    ensures exists j :: 0 <= j < |s| && t[i] == s[j]
  {
    RunsAreMaximal(s);
    var k :| 0 <= k < |Runs(s)| && Runs(s)[k] == t;
    var p := RunStarts(s)[k];
    assert MaximalRunAt(s, t, p);
    assert t[i] == s[p..p + |t|][i] == s[p + i];
  }

  /** `_tokens(text)`: lower-case, then cut into maximal word runs. Every
      token is a non-empty run of lower-case word characters. */
  function Tokens(text: string): (r: seq<string>)
    ensures forall t :: t in r ==> |t| > 0
    ensures forall t, i :: t in r && 0 <= i < |t| ==> IsWordChar(t[i]) && !IsUpper(t[i])
  {
    var low := Lower(text);
    forall t, i | t in Runs(low) && 0 <= i < |t|
      ensures !IsUpper(t[i])
    {
      RunsKeepChars(low, t, i);
    }
    Runs(low)
  }

  /** The characters of `s` that belong to `\w`, in order. */
  function WordChars(s: string): string {
    if s == [] then []
    else (if IsWordChar(s[0]) then [s[0]] else []) + WordChars(s[1..])
  }

  function Concat(ts: seq<string>): string {
    if ts == [] then [] else ts[0] + Concat(ts[1..])
  }

  lemma {:induction false} WordCharsOfRun(s: string, n: nat)
    requires n <= |s|
    requires forall i :: 0 <= i < n ==> IsWordChar(s[i])
    ensures WordChars(s) == s[..n] + WordChars(s[n..])
    decreases n
  {
    if n > 0 {
      WordCharsOfRun(s[1..], n - 1);
      assert s[1..][..n - 1] == s[1..n];
      assert s[1..][n - 1..] == s[n..];
      assert s[..n] == [s[0]] + s[1..n];
    }
  }

  /** Tokenising loses exactly the separators: gluing the tokens back
      together gives the word characters of the input. */
  lemma {:induction false} RunsKeepWordChars(s: string)
    ensures Concat(Runs(s)) == WordChars(s)
    decreases |s|
  {
    if s == [] {
    } else if !IsWordChar(s[0]) {
      RunsKeepWordChars(s[1..]);
    } else {
      var n := RunLength(s);
      var rest := Runs(s[n..]);
      RunsKeepWordChars(s[n..]);
      WordCharsOfRun(s, n);
      assert Runs(s) == [s[..n]] + rest;
      ConcatCons(s[..n], rest);
    }
  }

  lemma ConcatCons(t: string, ts: seq<string>)
    ensures Concat([t] + ts) == t + Concat(ts)
  {
    assert ([t] + ts)[1..] == ts;
  }

  /** A text has a token exactly when it has a word character. */
  lemma TokensEmptyIff(text: string)
    ensures Tokens(text) == [] <==> forall i :: 0 <= i < |text| ==> !IsWordChar(text[i])
  {
    var low := Lower(text);
    forall i | 0 <= i < |text|
      ensures IsWordChar(low[i]) == IsWordChar(text[i])
    {
      LowerKeepsWordChars(text[i]);
    }
  }

  /** `needle` occurs in `hay` starting at index `i`. */
  predicate OccursAt(hay: string, needle: string, i: int) {
    0 <= i <= |hay| - |needle| && hay[i..i + |needle|] == needle
  }

  /** `needle in hay` for Python strings. */
  predicate Contains(hay: string, needle: string) {
    exists i | 0 <= i <= |hay| - |needle| :: OccursAt(hay, needle, i)
  }

  /** The characters `str.strip()` removes (the ASCII and Latin-1 ones). */
  predicate IsSpace(c: char) {
    var n := c as int;
    n == 32 || (9 <= n <= 13) || (28 <= n <= 31) || n == 0x85 || n == 0xA0
  }

  function LeadingSpaces(s: string): (n: nat)
    ensures n <= |s|
    ensures forall i :: 0 <= i < n ==> IsSpace(s[i])
    ensures n < |s| ==> !IsSpace(s[n])
  {
    if s == [] || !IsSpace(s[0]) then 0 else 1 + LeadingSpaces(s[1..])
  }

  function TrailingSpaces(s: string): (n: nat)
    ensures n <= |s|
    ensures forall i :: |s| - n <= i < |s| ==> IsSpace(s[i])
    ensures n < |s| ==> !IsSpace(s[|s| - n - 1])
  {
    if s == [] || !IsSpace(s[|s| - 1]) then 0 else 1 + TrailingSpaces(s[..|s| - 1])
  }

  /** `s.strip()`: the slice of `s` left after dropping leading and trailing
      whitespace. */
  function Strip(s: string): (r: string)
    ensures exists i :: OccursAt(s, r, i)
                        && (forall k :: 0 <= k < i ==> IsSpace(s[k]))
                        && (forall k :: i + |r| <= k < |s| ==> IsSpace(s[k]))
    ensures r != [] ==> !IsSpace(r[0]) && !IsSpace(r[|r| - 1])
    ensures r == [] <==> forall k :: 0 <= k < |s| ==> IsSpace(s[k])
  {
    var a := LeadingSpaces(s);
    var rest := s[a..];
    var b := TrailingSpaces(rest);
    var r := rest[..|rest| - b];
    assert r == s[a..a + |r|];
    assert OccursAt(s, r, a);
    assert forall k :: a + |r| <= k < |s| ==> s[k] == rest[k - a];
    r
  }

  function DigitChar(d: nat): char
    requires d < 10
  {
    (('0' as int) + d) as char
  }

  /** Decimal `str()` of a natural number: digits only, and no leading zero
      unless the number is zero itself. */
  function NatText(n: nat): (r: string)
    ensures |r| >= 1
    ensures forall i :: 0 <= i < |r| ==> '0' <= r[i] <= '9'
    ensures r[0] == '0' <==> n == 0
  {
    if n < 10 then [DigitChar(n)] else NatText(n / 10) + [DigitChar(n % 10)]
  }

  /** The number a string of decimal digits denotes (`int(s)` on digits). */
  function DigitsValue(s: string): nat
    requires forall i :: 0 <= i < |s| ==> '0' <= s[i] <= '9'
  {
    if s == [] then 0
    else DigitsValue(s[..|s| - 1]) * 10 + (s[|s| - 1] as int - '0' as int)
  }

  /** Reading the digits back gives the number. */
  lemma {:induction false} NatTextValue(n: nat)
    ensures DigitsValue(NatText(n)) == n
  {
    if n >= 10 {
      NatTextValue(n / 10);
      var r := NatText(n);
      assert r[..|r| - 1] == NatText(n / 10);
    }
  }

  /** `str(i)` for a Python int: optional minus sign, then decimal digits. */
  function IntText(i: int): (r: string)
    ensures |r| >= 1
    ensures (r[0] == '-') <==> i < 0
  {
    if i < 0 then "-" + NatText(-i) else NatText(i)
  }

  /** `int(str(i)) == i`: after the optional minus sign, the digits read
      back as the magnitude of `i`. */
  lemma IntTextValue(i: int)
    ensures i >= 0 ==> (forall k :: 0 <= k < |IntText(i)| ==> '0' <= IntText(i)[k] <= '9')
                       && DigitsValue(IntText(i)) == i
    ensures i < 0 ==> (forall k :: 1 <= k < |IntText(i)| ==> '0' <= IntText(i)[k] <= '9')
                      && DigitsValue(IntText(i)[1..]) == -i
  {
    var r := IntText(i);
    if i < 0 {
      var digits := NatText(-i);
      assert r == "-" + digits;
      assert r[1..] == digits;
      NatTextValue(-i);
    } else {
      assert r == NatText(i);
      NatTextValue(i);
    }
  }

  /** Distinct integers print differently, so `str()` can stand in for the
      integer as a node id. */
  lemma IntTextInjective(i: int, j: int)
    requires IntText(i) == IntText(j)
    ensures i == j
  {
    IntTextValue(i);
    IntTextValue(j);
  }
}
