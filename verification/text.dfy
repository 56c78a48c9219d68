/**
 * The few Python `str` operations the modelled code relies on: `split()`,
 * `split(sep)`, `' '.join`, `strip()`, `find`, `in`, `startswith`,
 * `endswith`, `replace`, `lower()` and `capitalize()`.
 *
 * Strings are sequences of Unicode scalar values. Whitespace follows
 * `str.isspace` exactly; case mapping is exact on ASCII (plus the one
 * non-ASCII character whose lowercase is an ASCII letter).
 */
module Text {

  // ---------------------------------------------------------------------------
  // Character classes
  // ---------------------------------------------------------------------------

  /** Python's `str.isspace` for one character: the characters `split()` and `strip()` treat as whitespace. */
  predicate IsSpace(c: char) {
    || c == ' '
    || ('\t' <= c <= '\r')
    || ('\U{1C}' <= c <= '\U{1F}')
    || c == '\U{85}' || c == '\U{A0}' || c == '\U{1680}'
    || ('\U{2000}' <= c <= '\U{200A}')
    || c == '\U{2028}' || c == '\U{2029}' || c == '\U{202F}' || c == '\U{205F}' || c == '\U{3000}'
  }

  predicate IsAsciiDigit(c: char) { '0' <= c <= '9' }

  predicate IsAsciiUpper(c: char) { 'A' <= c <= 'Z' }

  predicate IsAsciiLower(c: char) { 'a' <= c <= 'z' }

  /** The accented letters of the Esperanto and Polish alphabets, upper and lower case. */
  const ACCENTED_LETTERS: string :=
    "\U{0109}\U{011D}\U{0125}\U{0135}\U{015D}\U{016D}\U{0108}\U{011C}\U{0124}\U{0134}\U{015C}\U{016C}"
    + "\U{0105}\U{0107}\U{0119}\U{0142}\U{0144}\U{00F3}\U{015B}\U{017A}\U{017C}"
    + "\U{0104}\U{0106}\U{0118}\U{0141}\U{0143}\U{00D3}\U{015A}\U{0179}\U{017B}"

  /** A regular-expression word character (`\w`): exact on ASCII, and covering the accented letters above. */
  predicate IsWordChar(c: char) {
    IsAsciiDigit(c) || IsAsciiUpper(c) || IsAsciiLower(c) || c == '_' || c in ACCENTED_LETTERS
  }

  /** U+212A KELVIN SIGN, whose lowercase in Python is the ASCII letter 'k'. */
  const KELVIN_SIGN: char := '\U{212A}'

  function LowerChar(c: char): (d: char)
    ensures IsAsciiUpper(d) ==> d == c && !IsAsciiUpper(c)
  {
    if IsAsciiUpper(c) then (c as int + 32) as char
    else if c == KELVIN_SIGN then 'k'
    else c
  }

  function UpperChar(c: char): char {
    if IsAsciiLower(c) then (c as int - 32) as char else c
  }

  /**
   * Python's `str.lower()`: no capital is left; an ASCII capital moves to
   * its small letter, the Kelvin sign becomes 'k', and every other
   * character stays where it is.
   */
  function Lower(s: string): (r: string)
    ensures |r| == |s|
    ensures forall i :: 0 <= i < |r| ==> !IsAsciiUpper(r[i]) && r[i] != KELVIN_SIGN
    ensures forall i :: 0 <= i < |s| && IsAsciiUpper(s[i]) ==> r[i] as int == s[i] as int + 32
    ensures forall i :: 0 <= i < |s| && s[i] == KELVIN_SIGN ==> r[i] == 'k'
    ensures forall i :: 0 <= i < |s| && !IsAsciiUpper(s[i]) && s[i] != KELVIN_SIGN ==> r[i] == s[i]
  {
    seq(|s|, i requires 0 <= i < |s| => LowerChar(s[i]))
  }

  /** Lower-casing twice changes nothing more. */
  lemma LowerIdempotent(s: string)
    ensures Lower(Lower(s)) == Lower(s)
  {
    LowerOfLowercase(Lower(s));
  }

  /** Text without capitals is its own lowercase. */
  lemma LowerOfLowercase(s: string)
    requires forall i :: 0 <= i < |s| ==> !IsAsciiUpper(s[i]) && s[i] != KELVIN_SIGN
    ensures Lower(s) == s
  {
  }

  /**
   * Python's `str.capitalize()`: a small ASCII first letter becomes its
   * capital, no capital is left after the first character, and the text
   * agrees with the original up to case.
   */
  function Capitalize(s: string): (r: string)
    ensures |r| == |s|
    ensures |s| > 0 && IsAsciiLower(s[0]) ==> r[0] as int == s[0] as int - 32
    ensures |s| > 0 && !IsAsciiLower(s[0]) ==> r[0] == s[0]
    ensures forall i :: 1 <= i < |r| ==> !IsAsciiUpper(r[i]) && r[i] != KELVIN_SIGN
    ensures Lower(r) == Lower(s)
  {
    if |s| == 0 then ""
    else
      var r := [UpperChar(s[0])] + Lower(s[1..]);
      LowerIdempotent(s[1..]);
      assert Lower(r)[1..] == Lower(r[1..]);
      assert Lower(s)[1..] == Lower(s[1..]);
      r
  }

  /** Capitalising twice changes nothing more. */
  lemma CapitalizeIdempotent(s: string)
    ensures Capitalize(Capitalize(s)) == Capitalize(s)
  {
    if |s| > 0 {
      LowerIdempotent(s[1..]);
    }
  }

  // ---------------------------------------------------------------------------
  // Searching
  // ---------------------------------------------------------------------------

  predicate StartsWith(s: string, prefix: string) {
    |prefix| <= |s| && s[..|prefix|] == prefix
  }

  /** A text starts with any of its prefixes. */
  lemma StartsWithPrefix(a: string, b: string)
    ensures StartsWith(a + b, a)
  {
    assert (a + b)[..|a|] == a;
  }

  predicate EndsWith(s: string, suffix: string) {
    |suffix| <= |s| && s[|s| - |suffix|..] == suffix
  }

  /** `sub` occurs in `s` starting at index `i`. */
  ghost predicate OccursAt(s: string, sub: string, i: int) {
    0 <= i && i + |sub| <= |s| && s[i..i + |sub|] == sub
  }

  /** Python's `sub in s`. */
  predicate Contains(s: string, sub: string)
    decreases |s|
  {
    StartsWith(s, sub) || (|s| > 0 && Contains(s[1..], sub))
  }

  /** `Contains` holds exactly when `sub` occurs at some index of `s`. */
  lemma {:induction false} ContainsIff(s: string, sub: string)
    ensures Contains(s, sub) <==> exists i :: OccursAt(s, sub, i)
    decreases |s|
  {
    if Contains(s, sub) {
      var i := ContainsWitness(s, sub);
    }
    forall i | OccursAt(s, sub, i)
      ensures Contains(s, sub)
    {
      OccursImpliesContains(s, sub, i);
    }
  }

  lemma {:induction false} ContainsWitness(s: string, sub: string) returns (i: nat)
    requires Contains(s, sub)
    ensures OccursAt(s, sub, i)
    decreases |s|
  {
    if StartsWith(s, sub) {
      i := 0;
    } else {
      var j := ContainsWitness(s[1..], sub);
      assert s[j + 1..j + 1 + |sub|] == s[1..][j..j + |sub|];
      i := j + 1;
    }
  }

  lemma {:induction false} OccursImpliesContains(s: string, sub: string, i: int)
    requires OccursAt(s, sub, i)
    ensures Contains(s, sub)
    decreases i
  {
    if i > 0 {
      assert s[1..][i - 1..i - 1 + |sub|] == s[i..i + |sub|];
      OccursImpliesContains(s[1..], sub, i - 1);
    }
  }

  /** A text lacking one of the characters of `sub` does not contain `sub`. */
  lemma MissingCharNotContained(s: string, sub: string, j: nat)
    requires j < |sub| && sub[j] !in s
    ensures !Contains(s, sub)
  {
    forall i ensures !OccursAt(s, sub, i) {
      if 0 <= i && i + |sub| <= |s| {
        assert s[i..i + |sub|][j] == s[i + j];
      }
    }
    ContainsIff(s, sub);
  }

  /** A prefix without the first character of `sub` cannot start an occurrence of it. */
  lemma PrefixKeepsNotContained(a: string, b: string, sub: string)
    requires |sub| > 0 && sub[0] !in a && !Contains(b, sub)
    ensures !Contains(a + b, sub)
  {
    ContainsIff(b, sub);
    forall i ensures !OccursAt(a + b, sub, i) {
      if 0 <= i && i + |sub| <= |a + b| {
        if i < |a| {
          assert (a + b)[i..i + |sub|][0] == a[i];
        } else {
          assert (a + b)[i..i + |sub|] == b[i - |a|..i - |a| + |sub|];
          assert !OccursAt(b, sub, i - |a|);
        }
      }
    }
    ContainsIff(a + b, sub);
  }

  /** Python's `s.find(c)` for a one-character needle: the first index of `c`, or -1. */
  function Find(s: string, c: char): (k: int)
    ensures -1 <= k < |s|
    ensures k == -1 <==> c !in s
    ensures k >= 0 ==> s[k] == c && c !in s[..k]
  {
    if |s| == 0 then -1
    else if s[0] == c then 0
    else
      var k := Find(s[1..], c);
      if k == -1 then -1 else k + 1
  }

  /** The first `c` of `a + [c] + b` is the one after `a` when `a` has none. */
  lemma {:induction false} FindAfter(a: string, c: char, b: string)
    requires c !in a
    ensures Find(a + [c] + b, c) == |a| && (a + [c] + b)[..|a|] == a
  {
    var s := a + [c] + b;
    assert s[..|a|] == a;
    if |a| > 0 {
      assert s[1..] == a[1..] + [c] + b;
      FindAfter(a[1..], c, b);
    }
  }

  function Count(s: string, c: char): nat {
    if |s| == 0 then 0 else (if s[0] == c then 1 else 0) + Count(s[1..], c)
  }

  lemma {:induction false} CountZero(s: string, c: char)
    ensures Count(s, c) == 0 <==> c !in s
  {
    if |s| > 0 {
      CountZero(s[1..], c);
      assert s == [s[0]] + s[1..];
    }
  }

  // ---------------------------------------------------------------------------
  // Splitting and joining
  // ---------------------------------------------------------------------------

  /** `sep.join(ws)`. */
  function JoinWith(ws: seq<string>, sep: string): string {
    if |ws| == 0 then ""
    else if |ws| == 1 then ws[0]
    else ws[0] + sep + JoinWith(ws[1..], sep)
  }

  /** Python's `s.split(c)` for a one-character separator: there is one part more than there are separators, and no part contains the separator. */
  function SplitOn(s: string, c: char): (parts: seq<string>)
    ensures |parts| == Count(s, c) + 1
    ensures forall i :: 0 <= i < |parts| ==> c !in parts[i]
  {
    if |s| == 0 then [""]
    else
      var rest := SplitOn(s[1..], c);
      if s[0] == c then [""] + rest
      else [[s[0]] + rest[0]] + rest[1..]
  }

  /** Joining the parts back with the separator gives the original text. */
  lemma {:induction false} SplitOnJoin(s: string, c: char)
    ensures JoinWith(SplitOn(s, c), [c]) == s
  {
    if |s| > 0 {
      var rest := SplitOn(s[1..], c);
      SplitOnJoin(s[1..], c);
      if s[0] == c {
        assert s == [c] + s[1..];
      } else {
        JoinConsHead(s[0], rest, [c]);
        assert s == [s[0]] + s[1..];
      }
    }
  }

  lemma JoinConsHead(x: char, ws: seq<string>, sep: string)
    requires |ws| > 0
    ensures JoinWith([[x] + ws[0]] + ws[1..], sep) == [x] + JoinWith(ws, sep)
  {
    var ws' := [[x] + ws[0]] + ws[1..];
    assert ws'[1..] == ws[1..];
  }

  /** The first part is the text up to the first separator, or all of it when there is none. */
  lemma {:induction false} SplitOnFirst(s: string, c: char)
    ensures var k := Find(s, c); SplitOn(s, c)[0] == if k < 0 then s else s[..k]
  {
    if |s| > 0 && s[0] != c {
      SplitOnFirst(s[1..], c);
      assert s == [s[0]] + s[1..];
      var k := Find(s[1..], c);
      if k >= 0 {
        assert s[..k + 1] == [s[0]] + s[1..][..k];
      }
    }
  }

  /** Splitting a text with a first character: a separator starts a new part, anything else joins the first. */
  lemma SplitOnCons(x: char, t: string, c: char)
    ensures SplitOn([x] + t, c) ==
      if x == c then [""] + SplitOn(t, c) else [[x] + SplitOn(t, c)[0]] + SplitOn(t, c)[1..]
  {
    assert ([x] + t)[0] == x && ([x] + t)[1..] == t;
  }

  lemma ConsParts(x: char, c: char, ra: seq<string>, rb: seq<string>)
    requires |ra| > 0
    ensures (if x == c then [""] + (ra + rb) else [[x] + (ra + rb)[0]] + (ra + rb)[1..])
         == (if x == c then [""] + ra else [[x] + ra[0]] + ra[1..]) + rb
  {
    if x != c {
      assert (ra + rb)[0] == ra[0];
      assert (ra + rb)[1..] == ra[1..] + rb;
    }
  }

  /** Splitting at a separator splits the two sides independently. */
  lemma {:induction false} SplitOnConcat(a: string, c: char, b: string)
    ensures SplitOn(a + [c] + b, c) == SplitOn(a, c) + SplitOn(b, c)
  {
    if |a| == 0 {
      assert a + [c] + b == [c] + b;
      SplitOnCons(c, b, c);
    } else {
      var x, t := a[0], a[1..];
      assert a == [x] + t;
      assert a + [c] + b == [x] + (t + [c] + b);
      SplitOnConcat(t, c, b);
      SplitOnCons(x, t + [c] + b, c);
      SplitOnCons(x, t, c);
      ConsParts(x, c, SplitOn(t, c), SplitOn(b, c));
    }
  }

  /** A separator-free head is the first part; the rest splits on its own. */
  lemma SplitOnHead(p: string, c: char, rest: string)
    requires c !in p
    ensures SplitOn(p + [c] + rest, c) == [p] + SplitOn(rest, c)
  {
    SplitOnConcat(p, c, rest);
    SplitOnNoSeparator(p, c);
  }

  lemma {:induction false} SplitOnNoSeparator(s: string, c: char)
    requires c !in s
    ensures SplitOn(s, c) == [s]
  {
    CountZero(s, c);
    SplitOnJoin(s, c);
  }

  // ---------------------------------------------------------------------------
  // Whitespace: `split()` and `strip()`
  // ---------------------------------------------------------------------------

  /** A word as `split()` yields it: non-empty, without whitespace. */
  predicate IsWord(w: string) {
    |w| > 0 && forall i :: 0 <= i < |w| ==> !IsSpace(w[i])
  }

  /** Length of the leading run of non-whitespace characters. */
  function RunLength(s: string): (n: nat)
    ensures n <= |s|
    ensures forall i :: 0 <= i < n ==> !IsSpace(s[i])
    ensures n < |s| ==> IsSpace(s[n])
  {
    if |s| == 0 || IsSpace(s[0]) then 0 else 1 + RunLength(s[1..])
  }

  /** Python's `s.split()` with no argument: the maximal runs of non-whitespace characters. */
  function Words(s: string): (ws: seq<string>)
    ensures forall i :: 0 <= i < |ws| ==> IsWord(ws[i])
    decreases |s|
  {
    if |s| == 0 then []
    else if IsSpace(s[0]) then Words(s[1..])
    else
      var n := RunLength(s);
      [s[..n]] + Words(s[n..])
  }

  function RemoveSpaces(s: string): string {
    if |s| == 0 then "" else (if IsSpace(s[0]) then "" else [s[0]]) + RemoveSpaces(s[1..])
  }

  function Concat(ws: seq<string>): string {
    if |ws| == 0 then "" else ws[0] + Concat(ws[1..])
  }

  lemma {:induction false} RemoveSpacesAppend(a: string, b: string)
    ensures RemoveSpaces(a + b) == RemoveSpaces(a) + RemoveSpaces(b)
  {
    if |a| > 0 {
      RemoveSpacesAppend(a[1..], b);
      assert (a + b)[1..] == a[1..] + b;
    } else {
      assert a + b == b;
    }
  }

  lemma {:induction false} RemoveSpacesOfWord(w: string)
    requires forall i :: 0 <= i < |w| ==> !IsSpace(w[i])
    ensures RemoveSpaces(w) == w
  {
    if |w| > 0 {
      RemoveSpacesOfWord(w[1..]);
    }
  }

  /** The words, run together, are the text with its whitespace removed: `split()` loses nothing but whitespace. */
  lemma {:induction false} WordsConcat(s: string)
    ensures Concat(Words(s)) == RemoveSpaces(s)
    decreases |s|
  {
    if |s| > 0 {
      if IsSpace(s[0]) {
        WordsConcat(s[1..]);
      } else {
        var n := RunLength(s);
        WordsConcat(s[n..]);
        assert s == s[..n] + s[n..];
        RemoveSpacesAppend(s[..n], s[n..]);
        RemoveSpacesOfWord(s[..n]);
        var ws := Words(s);
        assert ws[0] == s[..n] && ws[1..] == Words(s[n..]);
      }
    }
  }

  lemma {:induction false} RunLengthOfWord(w: string, t: string)
    requires IsWord(w)
    requires |t| == 0 || IsSpace(t[0])
    ensures RunLength(w + t) == |w|
    decreases |w|
  {
    var s := w + t;
    assert s[0] == w[0];
    if |w| > 1 {
      assert IsWord(w[1..]) by {
        forall i | 0 <= i < |w[1..]|
          ensures !IsSpace(w[1..][i])
        {
          assert w[1..][i] == w[i + 1];
        }
      }
      assert s[1..] == w[1..] + t;
      RunLengthOfWord(w[1..], t);
    } else {
      assert s[1..] == t;
    }
  }

  /** The leading run stops at the first whitespace, whether it lies in `a` or just after it. */
  lemma {:induction false} RunLengthAppend(a: string, t: string)
    requires RunLength(a) < |a| || |t| == 0 || IsSpace(t[0])
    ensures RunLength(a + t) == RunLength(a)
    decreases |a|
  {
    if |a| == 0 {
      assert a + t == t;
    } else if !IsSpace(a[0]) {
      assert (a + t)[0] == a[0];
      assert (a + t)[1..] == a[1..] + t;
      RunLengthAppend(a[1..], t);
    } else {
      assert (a + t)[0] == a[0];
    }
  }

  /** A single word, with no whitespace around it, splits into itself. */
  lemma WordsOfWord(w: string)
    requires IsWord(w)
    ensures Words(w) == [w]
  {
    RunLengthOfWord(w, "");
    assert w + "" == w;
    assert w[|w|..] == "";
  }

  /**
   * Whitespace always separates words: no word of `split()` spans a
   * whitespace character, so the words are the maximal runs.
   */
  lemma {:induction false} WordsSplitAtSpace(a: string, sp: char, b: string)
    requires IsSpace(sp)
    ensures Words(a + [sp] + b) == Words(a) + Words(b)
    decreases |a|
  {
    var s := a + [sp] + b;
    if |a| == 0 {
      assert s == [sp] + b;
      assert s[1..] == b;
    } else if IsSpace(a[0]) {
      assert s[0] == a[0];
      assert s[1..] == a[1..] + [sp] + b;
      WordsSplitAtSpace(a[1..], sp, b);
    } else {
      WordsSplitAtSpace(a[RunLength(a)..], sp, b);
      WordsSplitAfterRun(a, sp, b);
    }
  }

  /** The step of `WordsSplitAtSpace` past the leading word of `a`. */
  lemma WordsSplitAfterRun(a: string, sp: char, b: string)
    requires |a| > 0 && !IsSpace(a[0]) && IsSpace(sp)
    requires Words(a[RunLength(a)..] + [sp] + b) == Words(a[RunLength(a)..]) + Words(b)
    ensures Words(a + [sp] + b) == Words(a) + Words(b)
  {
    var s, m := a + [sp] + b, RunLength(a);
    assert s == a + ([sp] + b);
    RunLengthAppend(a, [sp] + b);
    assert s[..m] == a[..m];
    assert s[m..] == a[m..] + [sp] + b;
    WordsHead(s);
    WordsHead(a);
  }

  /** Text starting with a non-whitespace character: its first word is the leading run. */
  lemma WordsHead(s: string)
    requires |s| > 0 && !IsSpace(s[0])
    ensures Words(s) == [s[..RunLength(s)]] + Words(s[RunLength(s)..])
  {
  }

  /** Splitting words joined by single spaces gives the words back. */
  lemma {:induction false} WordsOfJoin(ws: seq<string>)
    requires forall i :: 0 <= i < |ws| ==> IsWord(ws[i])
    ensures Words(JoinWith(ws, " ")) == ws
  {
    if |ws| == 1 {
      var w := ws[0];
      RunLengthOfWord(w, "");
      assert w + "" == w;
      assert w[|w|..] == "";
    } else if |ws| > 1 {
      var w := ws[0];
      var rest := JoinWith(ws[1..], " ");
      var s := w + " " + rest;
      assert s == w + (" " + rest);
      RunLengthOfWord(w, " " + rest);
      assert s[..|w|] == w;
      assert s[|w|..] == " " + rest;
      assert (" " + rest)[1..] == rest;
      WordsOfJoin(ws[1..]);
    }
  }

  /** `lstrip()`: drops leading whitespace and nothing else. */
  function TrimLeft(s: string): (r: string)
    ensures |r| <= |s| && r == s[|s| - |r|..]
    ensures |r| == 0 || !IsSpace(r[0])
    ensures RemoveSpaces(r) == RemoveSpaces(s)
  {
    if |s| > 0 && IsSpace(s[0]) then TrimLeft(s[1..]) else s
  }

  /** `rstrip()`: drops trailing whitespace and nothing else. */
  function TrimRight(s: string): (r: string)
    ensures |r| <= |s| && r == s[..|r|]
    ensures |r| == 0 || !IsSpace(r[|r| - 1])
    ensures RemoveSpaces(r) == RemoveSpaces(s)
  {
    if |s| > 0 && IsSpace(s[|s| - 1]) then
      var init := s[..|s| - 1];
      assert s == init + [s[|s| - 1]];
      RemoveSpacesAppend(init, [s[|s| - 1]]);
      TrimRight(init)
    else s
  }

  /** Python's `s.strip()`: a slice of `s` with no whitespace at either end, obtained by removing whitespace only. */
  function Strip(s: string): (r: string)
    ensures exists i :: OccursAt(s, r, i)
    ensures |r| == 0 || (!IsSpace(r[0]) && !IsSpace(r[|r| - 1]))
    ensures RemoveSpaces(r) == RemoveSpaces(s)
  {
    var l := TrimLeft(s);
    var r := TrimRight(l);
    assert OccursAt(s, r, |s| - |l|);
    r
  }

  /** Leading whitespace is dropped up to the first other character. */
  lemma {:induction false} TrimLeftSpaces(a: string, t: string)
    requires forall i :: 0 <= i < |a| ==> IsSpace(a[i])
    requires |t| == 0 || !IsSpace(t[0])
    ensures TrimLeft(a + t) == t
    decreases |a|
  {
    if |a| > 0 {
      assert (a + t)[1..] == a[1..] + t;
      TrimLeftSpaces(a[1..], t);
    } else {
      assert a + t == t;
    }
  }

  /** Trailing whitespace is dropped back to the last other character. */
  lemma {:induction false} TrimRightSpaces(t: string, b: string)
    requires forall i :: 0 <= i < |b| ==> IsSpace(b[i])
    requires |t| == 0 || !IsSpace(t[|t| - 1])
    ensures TrimRight(t + b) == t
    decreases |b|
  {
    if |b| > 0 {
      assert (t + b)[..|t + b| - 1] == t + b[..|b| - 1];
      TrimRightSpaces(t, b[..|b| - 1]);
    } else {
      assert t + b == t;
    }
  }

  /** Stripping keeps only characters of the text, so a character the text lacks stays absent. */
  lemma StripAvoids(s: string, c: char)
    requires c !in s
    ensures c !in Strip(s)
  {
    var r := Strip(s);
    var i :| OccursAt(s, r, i);
    forall k | 0 <= k < |r|
      ensures r[k] != c
    {
      assert r[k] == s[i..i + |r|][k] == s[i + k];
    }
  }

  /** Non-empty, with no whitespace at either end. */
  predicate Trimmed(s: string) {
    |s| > 0 && !IsSpace(s[0]) && !IsSpace(s[|s| - 1])
  }

  /** Text with no whitespace at either end is its own strip. */
  lemma StripTrimmed(s: string)
    requires |s| == 0 || (!IsSpace(s[0]) && !IsSpace(s[|s| - 1]))
    ensures Strip(s) == s
  {
  }

  /** One leading space is stripped off a trimmed word. */
  lemma StripAfterSpace(w: string)
    requires |w| > 0 && !IsSpace(w[0]) && !IsSpace(w[|w| - 1])
    ensures Strip(" " + w) == w
  {
    TrimLeftSpaces(" ", w);
  }

  /** Stripping a word padded with whitespace gives the word back. */
  lemma StripPadded(a: string, w: string, b: string)
    requires forall i :: 0 <= i < |a| ==> IsSpace(a[i])
    requires forall i :: 0 <= i < |b| ==> IsSpace(b[i])
    requires |w| > 0 && !IsSpace(w[0]) && !IsSpace(w[|w| - 1])
    ensures Strip(a + w + b) == w
  {
    assert a + w + b == a + (w + b);
    TrimLeftSpaces(a, w + b);
    TrimRightSpaces(w, b);
  }

  // ---------------------------------------------------------------------------
  // `str.replace`
  // ---------------------------------------------------------------------------

  /** `s.replace("", rep)`: `rep` inserted before every character and at the end. */
  function InsertEverywhere(s: string, rep: string): string {
    if |s| == 0 then rep else rep + [s[0]] + InsertEverywhere(s[1..], rep)
  }

  /** Python's `s.replace(pat, rep)`: every leftmost, non-overlapping occurrence of `pat`, scanning left to right. */
  function ReplaceAll(s: string, pat: string, rep: string): string
    decreases |s|
  {
    if |pat| == 0 then InsertEverywhere(s, rep)
    else if |s| < |pat| then s
    else if s[..|pat|] == pat then rep + ReplaceAll(s[|pat|..], pat, rep)
    else [s[0]] + ReplaceAll(s[1..], pat, rep)
  }

  /** A non-empty pattern that does not occur leaves the text unchanged. */
  lemma {:induction false} ReplaceAllAbsent(s: string, pat: string, rep: string)
    requires |pat| > 0 && !Contains(s, pat)
    ensures ReplaceAll(s, pat, rep) == s
    decreases |s|
  {
    if |s| >= |pat| {
      ReplaceAllAbsent(s[1..], pat, rep);
      assert s == [s[0]] + s[1..];
    }
  }

  /**
   * When the first occurrence of `pat` starts right after `a`, that
   * occurrence becomes `rep`, the text before it is kept, and the scan
   * resumes after it.
   */
  lemma ReplaceAllFirstOccurrence(a: string, pat: string, b: string, rep: string)
    requires |pat| > 0
    requires forall i :: 0 <= i < |a| ==> !OccursAt(a + pat, pat, i)
    ensures ReplaceAll(a + pat + b, pat, rep) == a + rep + ReplaceAll(b, pat, rep)
  {
    var s := a + pat + b;
    forall i | 0 <= i < |a|
      ensures !OccursAt(s, pat, i)
    {
      assert !OccursAt(a + pat, pat, i);
      assert s[i..i + |pat|] == (a + pat)[i..i + |pat|];
    }
    assert s[..|a|] == a && s[|a| + |pat|..] == b && s[|a|..|a| + |pat|] == pat;
    ReplaceAllFiresAt(s, pat, rep, 0, |a|);
    assert s[0..] == s;
  }

  /** The same on the suffix from `p`, with the first occurrence from there at index `k`. */
  lemma {:induction false} ReplaceAllFiresAt(s: string, pat: string, rep: string, p: nat, k: nat)
    requires |pat| > 0 && p <= k && OccursAt(s, pat, k)
    requires forall i :: p <= i < k ==> !OccursAt(s, pat, i)
    ensures ReplaceAll(s[p..], pat, rep) == s[p..k] + rep + ReplaceAll(s[k + |pat|..], pat, rep)
    decreases k - p
  {
    if p == k {
      ReplaceAllAtOccurrence(s, pat, rep, k);
    } else {
      var tail := ReplaceAll(s[k + |pat|..], pat, rep);
      calc {
        ReplaceAll(s[p..], pat, rep);
        { ReplaceAllCopiesChar(s, pat, rep, p); }
        [s[p]] + ReplaceAll(s[p + 1..], pat, rep);
        { ReplaceAllFiresAt(s, pat, rep, p + 1, k); }
        [s[p]] + (s[p + 1..k] + rep + tail);
        { assert s[p..k] == [s[p]] + s[p + 1..k]; }
        s[p..k] + rep + tail;
      }
    }
  }

  /** An occurrence at the start of the suffix from `k` is replaced, and the scan resumes after it. */
  lemma ReplaceAllAtOccurrence(s: string, pat: string, rep: string, k: nat)
    requires |pat| > 0 && OccursAt(s, pat, k)
    ensures ReplaceAll(s[k..], pat, rep) == rep + ReplaceAll(s[k + |pat|..], pat, rep)
  {
    assert s[k..][..|pat|] == s[k..k + |pat|];
    assert s[k..][|pat|..] == s[k + |pat|..];
  }

  /** Where no occurrence starts at `p`, the scan copies `s[p]` and moves on. */
  lemma ReplaceAllCopiesChar(s: string, pat: string, rep: string, p: nat)
    requires |pat| > 0 && p < |s| && !OccursAt(s, pat, p)
    ensures ReplaceAll(s[p..], pat, rep) == [s[p]] + ReplaceAll(s[p + 1..], pat, rep)
  {
    var u := s[p..];
    assert u[1..] == s[p + 1..];
    if |u| >= |pat| {
      assert u[..|pat|] == s[p..p + |pat|];
    } else {
      assert ReplaceAll(u[1..], pat, rep) == u[1..];
    }
  }

  /** Some character of the pattern never occurs in the text. */
  predicate HasCharOutside(pat: string, s: string) {
    |pat| > 0 && (pat[0] !in s || HasCharOutside(pat[1..], s))
  }

  lemma {:induction false} HasCharOutsideWitness(pat: string, s: string) returns (j: nat)
    requires HasCharOutside(pat, s)
    ensures j < |pat| && pat[j] !in s
  {
    if pat[0] in s {
      j := HasCharOutsideWitness(pat[1..], s);
      j := j + 1;
    } else {
      j := 0;
    }
  }

  /** A character of the pattern at a known index that the text lacks is a character outside it. */
  lemma {:induction false} HasCharOutsideAt(pat: string, s: string, j: nat)
    requires j < |pat| && pat[j] !in s
    ensures HasCharOutside(pat, s)
  {
    if j > 0 && pat[0] in s {
      HasCharOutsideAt(pat[1..], s, j - 1);
    }
  }

  /** A pattern with a character that the text lacks cannot occur in it, so the text is unchanged. */
  lemma {:induction false} ReplaceAllCharOutside(s: string, pat: string, rep: string)
    requires HasCharOutside(pat, s)
    ensures ReplaceAll(s, pat, rep) == s
  {
    var j := HasCharOutsideWitness(pat, s);
    ReplaceAllMissingChar(s, pat, rep, j);
  }

  lemma {:induction false} ReplaceAllMissingChar(s: string, pat: string, rep: string, j: nat)
    requires j < |pat| && pat[j] !in s
    ensures ReplaceAll(s, pat, rep) == s
    decreases |s|
  {
    if |s| >= |pat| {
      assert s[..|pat|][j] == s[j];
      ReplaceAllMissingChar(s[1..], pat, rep, j);
      assert s == [s[0]] + s[1..];
    }
  }

  /** Replacing one character is the same as splitting at it and joining with the replacement (Python's `rep.join(s.split(c))`). */
  lemma {:induction false} ReplaceCharIsSplitJoin(s: string, c: char, rep: string)
    ensures ReplaceAll(s, [c], rep) == JoinWith(SplitOn(s, c), rep)
  {
    if |s| > 0 {
      ReplaceCharIsSplitJoin(s[1..], c, rep);
      var rest := SplitOn(s[1..], c);
      if s[0] == c {
        assert s[..1] == [c];
      } else {
        assert s[..1] != [c];
        JoinConsHead(s[0], rest, rep);
      }
    }
  }

  /** Replacing one character distributes over concatenation. */
  lemma {:induction false} ReplaceCharAppend(a: string, b: string, c: char, rep: string)
    ensures ReplaceAll(a + b, [c], rep) == ReplaceAll(a, [c], rep) + ReplaceAll(b, [c], rep)
  {
    if |a| == 0 {
      assert a + b == b;
    } else {
      ReplaceCharAppend(a[1..], b, c, rep);
      ReplaceCharAppendCons(a[0], a[1..], b, c, rep);
      assert a == [a[0]] + a[1..];
    }
  }

  lemma ReplaceCharAppendCons(x: char, t: string, b: string, c: char, rep: string)
    requires ReplaceAll(t + b, [c], rep) == ReplaceAll(t, [c], rep) + ReplaceAll(b, [c], rep)
    ensures ReplaceAll([x] + t + b, [c], rep) == ReplaceAll([x] + t, [c], rep) + ReplaceAll(b, [c], rep)
  {
    assert [x] + t + b == [x] + (t + b);
    ReplaceCharCons(x, t + b, c, rep);
    ReplaceCharCons(x, t, c, rep);
  }

  /** Replacing one character: the first character becomes the replacement or stays, and the rest is replaced. */
  lemma ReplaceCharCons(x: char, t: string, c: char, rep: string)
    ensures ReplaceAll([x] + t, [c], rep) == (if x == c then rep else [x]) + ReplaceAll(t, [c], rep)
  {
    assert ([x] + t)[..1] == [x] && ([x] + t)[1..] == t;
  }
}
