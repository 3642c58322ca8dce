/**
  The three pieces of Python text handling the graph file format relies on:
  `str.split()` with no argument, `int(word)` and `str(n)` / `f"{n}"` for a
  non-negative integer.
 */
module Text {
  import opened Basics

  /** Python's `str.isspace()` for one character: the characters `str.split()` splits on. */
  predicate IsSpace(c: char) {
    || ('\t' <= c <= '\r')                       // \t \n \v \f \r
    || ('\U{1c}' <= c <= ' ')                    // file, group, record and unit separators; space
    || c == '\U{85}' || c == '\U{a0}' || c == '\U{1680}'
    || ('\U{2000}' <= c <= '\U{200a}')
    || c == '\U{2028}' || c == '\U{2029}' || c == '\U{202f}' || c == '\U{205f}' || c == '\U{3000}'
  }

  predicate IsDigit(c: char) {
    '0' <= c <= '9'
  }

  /** A maximal run `str.split()` can return: non-empty, without whitespace. */
  predicate IsWord(w: string) {
    |w| > 0 && forall i :: 0 <= i < |w| ==> !IsSpace(w[i])
  }

  /** Length of the run of non-space characters at the front of `s`. */
  function WordLength(s: string): (k: nat)
    requires |s| > 0 && !IsSpace(s[0])
    ensures 0 < k <= |s| && IsWord(s[..k])
    ensures k < |s| ==> IsSpace(s[k])
  {
    if |s| == 1 || IsSpace(s[1]) then 1
    else
      var k := 1 + WordLength(s[1..]);
      assert forall i :: 1 <= i < k ==> s[..k][i] == s[1..][..k - 1][i - 1];
      k
  }

  /** `s.split()` (and `s.strip().split()`, which is the same list). */
  function Words(s: string): (ws: seq<string>)
    ensures forall i :: 0 <= i < |ws| ==> IsWord(ws[i])
    decreases |s|
  {
    if s == [] then []
    else if IsSpace(s[0]) then Words(s[1..])
    else
      var k := WordLength(s);
      [s[..k]] + Words(s[k..])
  }

  /** Value of a digit string in which single underscores may separate digit groups. */
  function DigitsValue(s: string): nat {
    if s == [] then 0
    else if Last(s) == '_' || !IsDigit(Last(s)) then DigitsValue(s[..|s| - 1])
    else 10 * DigitsValue(s[..|s| - 1]) + (Last(s) - '0') as nat
  }

  /** What `int()` accepts after the sign: `1_000` but neither `_1`, `1_`, nor `1__0`. */
  predicate DigitGroups(s: string) {
    && |s| > 0 && IsDigit(s[0]) && IsDigit(Last(s))
    && (forall i :: 0 <= i < |s| ==> IsDigit(s[i]) || s[i] == '_')
    && (forall i :: 0 <= i < |s| - 1 ==> s[i] == '_' ==> s[i + 1] != '_')
  }

  /** `int(w)` for a word `w` of `str.split()`: an optional sign, then decimal digits; None for ValueError. */
  function ParseInt(w: string): (r: Option<int>)
    ensures r.Some? ==> |w| > 0
    ensures r.Some? && IsDigit(w[0]) ==> r.value >= 0
  {
    if |w| > 0 && (w[0] == '-' || w[0] == '+') then
      var d := w[1..];
      if !DigitGroups(d) then None
      else if w[0] == '-' then Some(-(DigitsValue(d) as int))
      else Some(DigitsValue(d))
    else if DigitGroups(w) then Some(DigitsValue(w))
    else None
  }

  function DigitChar(d: nat): (c: char)
    requires d < 10
    ensures IsDigit(c)
  {
    '0' + d as char
  }

  /** `str(n)` for `n >= 0`: decimal digits without leading zeros. */
  function NatToString(n: nat): (s: string)
    ensures |s| > 0 && forall i :: 0 <= i < |s| ==> IsDigit(s[i])
    ensures |s| > 1 ==> s[0] != '0'
  {
    if n < 10 then [DigitChar(n)]
    else NatToString(n / 10) + [DigitChar(n % 10)]
  }

  // ---------------------------------------------------------------------------
  // Round trips.

  /** `int(str(n)) == n`. */
  lemma {:induction false} ParseNatToString(n: nat)
    ensures IsWord(NatToString(n))
    ensures ParseInt(NatToString(n)) == Some(n)
  {
    DigitsValueOfNat(n);
    var s := NatToString(n);
    assert forall i :: 0 <= i < |s| ==> !IsSpace(s[i]);
  }

  lemma {:induction false} DigitsValueOfNat(n: nat)
    ensures DigitsValue(NatToString(n)) == n
  {
    var s := NatToString(n);
    if n < 10 {
      assert s[..0] == [];
    } else {
      DigitsValueOfNat(n / 10);
      assert s[..|s| - 1] == NatToString(n / 10);
    }
  }

  /** `int("-" + str(n)) == -n`: the sign is read. */
  lemma ParseNegative(n: nat)
    ensures ParseInt(['-'] + NatToString(n)) == Some(-(n as int))
  {
    DigitsValueOfNat(n);
    assert (['-'] + NatToString(n))[1..] == NatToString(n);
  }

  /** A word followed by whitespace (or by nothing) is split off as the first word. */
  lemma WordsCons(w: string, rest: string)
    requires IsWord(w) && (rest == [] || IsSpace(rest[0]))
    ensures Words(w + rest) == [w] + Words(rest)
  {
    var s := w + rest;
    WordLengthOf(w, rest);
    assert s[..|w|] == w && s[|w|..] == rest;
  }

  lemma {:induction false} WordLengthOf(w: string, rest: string)
    requires IsWord(w) && (rest == [] || IsSpace(rest[0]))
    ensures WordLength(w + rest) == |w|
  {
    var s := w + rest;
    if |w| > 1 {
      assert s[1..] == w[1..] + rest;
      WordLengthOf(w[1..], rest);
    }
  }

  /** Leading whitespace is skipped. */
  lemma WordsSpace(c: char, rest: string)
    requires IsSpace(c)
    ensures Words([c] + rest) == Words(rest)
  {
    assert ([c] + rest)[1..] == rest;
  }

  /** The line `f"{a} {b}\n"` splits into the two words `str(a)` and `str(b)`. */
  lemma WordsOfPairLine(a: string, b: string)
    requires IsWord(a) && IsWord(b)
    ensures Words(a + " " + b + "\n") == [a, b]
  {
    var tail := b + "\n";
    assert a + " " + b + "\n" == a + ([' '] + tail);
    WordsCons(a, [' '] + tail);
    WordsSpace(' ', tail);
    WordsOfLine(b);
  }

  /** The line `f"{b}\n"` splits into the one word `b`. */
  lemma WordsOfLine(b: string)
    requires IsWord(b)
    ensures Words(b + "\n") == [b]
  {
    WordsCons(b, "\n");
    assert Words("\n") == [] by { WordsSpace('\n', []); }
  }
}
