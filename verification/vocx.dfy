/**
 * The Esperanto-to-Polish-spelling converter of `src/vocx.py`.
 *
 * A converter is loaded once from a rule document (letters, fragments,
 * overrides, numbers) and then rewrites text in four fixed stages:
 * whole-word overrides, numeral substitution, fragment substitution and a
 * final letter-by-letter pass. Everything here follows the code as written,
 * including the two places where it does not do what its rule table
 * suggests (see `WordEndRulesAreLiteral` and `HundredSpelledDigitByDigit`).
 */
module Vocx {
  import opened Wrappers
  import opened Text

  // ---------------------------------------------------------------------------
  // The rule document and the loaded converter
  // ---------------------------------------------------------------------------

  /** One key/value item of a rule table: a `{match, replace}` fragment, an `{eo, pl}` override, or a numeral and its word. */
  datatype Entry = Entry(key: string, value: string)

  /** The decoded rule document, every table in document order. */
  datatype RuleSet = RuleSet(
    letters: map<char, string>,
    fragments: seq<Entry>,
    overrides: seq<Entry>,
    numbers: seq<Entry>)

  /**
   * The three shapes a fragment rule can take: a plain `str.replace`, a regex
   * anchored with `^` at the start of the text, or a regex ending in the
   * word-boundary assertion `\b`.
   */
  datatype Pattern = Literal(text: string) | AtStart(text: string) | AtWordEnd(text: string)

  datatype FragmentRule = FragmentRule(pattern: Pattern, replace: string)

  /** A regex fragment this model cannot interpret (Python would compile it; see README). */
  datatype LoadError = UnsupportedRegex(pattern: string)

  /** A `VocxConverter` after `_prepare_rules`: the letter table, the classified fragment rules, the override dict and the numeral dict, in insertion order. */
  datatype Converter = Converter(
    letters: map<char, string>,
    fragments: seq<FragmentRule>,
    overrides: map<string, string>,
    numbers: seq<Entry>)

  /** The pattern text a rule was compiled from. */
  function Source(p: Pattern): string {
    match p
    case Literal(t) => t
    case AtStart(t) => "^" + t
    case AtWordEnd(t) => t + "\\b"
  }

  /** The test that decides whether a fragment is handed to the regex engine. */
  predicate IsRegex(m: string) {
    StartsWith(m, "^") || EndsWith(m, "\\b")
  }

  const REGEX_METACHARACTERS: string := ".^$*+?{}[]\\|()"

  /** Text in which no character has a special meaning to Python's `re`. */
  predicate PlainText(t: string) {
    forall i :: 0 <= i < |t| ==> t[i] !in REGEX_METACHARACTERS
  }

  /** A word-end rule needs a non-empty text before its `\b`. */
  predicate WellFormedRule(r: FragmentRule) {
    r.pattern.AtWordEnd? ==> |r.pattern.text| > 0
  }

  predicate WellFormedRules(rules: seq<FragmentRule>) {
    forall r :: r in rules ==> WellFormedRule(r)
  }

  predicate WellFormed(c: Converter) {
    WellFormedRules(c.fragments)
  }

  /**
   * `ReplacementRule(match, replace, is_regex)` with the regex compiled:
   * a fragment is a regex exactly when `IsRegex` holds, and the compiled rule
   * prints back to the match text it came from.
   */
  function CompileFragment(e: Entry): (r: Result<FragmentRule, LoadError>)
    ensures !IsRegex(e.key) ==> r.Ok?
    ensures r.Ok? ==> (r.value.pattern.Literal? <==> !IsRegex(e.key))
    ensures r.Ok? ==> Source(r.value.pattern) == e.key && r.value.replace == e.value
    ensures r.Ok? ==> WellFormedRule(r.value)
  {
    var m := e.key;
    if !IsRegex(m) then Ok(FragmentRule(Literal(m), e.value))
    else if '\\' in e.value then Err(UnsupportedRegex(m))
    else if StartsWith(m, "^") && PlainText(m[1..]) then
      assert m == "^" + m[1..];
      Ok(FragmentRule(AtStart(m[1..]), e.value))
    else if EndsWith(m, "\\b") && |m| > 2 && PlainText(m[..|m| - 2]) then
      assert m == m[..|m| - 2] + "\\b";
      Ok(FragmentRule(AtWordEnd(m[..|m| - 2]), e.value))
    else Err(UnsupportedRegex(m))
  }

  /** The fragment list compiled in order; loading fails on the first rule that does not compile. */
  function CompileFragments(es: seq<Entry>): (r: Result<seq<FragmentRule>, LoadError>)
    ensures r.Ok? <==> forall i :: 0 <= i < |es| ==> CompileFragment(es[i]).Ok?
    ensures r.Ok? ==> |r.value| == |es| && forall i :: 0 <= i < |es| ==> CompileFragment(es[i]) == Ok(r.value[i])
  {
    if |es| == 0 then Ok([])
    else
      match CompileFragment(es[0])
      case Err(e) => Err(e)
      case Ok(rule) =>
        match CompileFragments(es[1..])
        case Err(e) => Err(e)
        case Ok(rest) =>
          TailIndex(es);
          Ok([rule] + rest)
  }

  lemma TailIndex<T>(s: seq<T>)
    requires |s| > 0
    ensures forall i :: 1 <= i < |s| ==> s[i] == s[1..][i - 1]
  {
  }

  /** The value of the last of the first `n` entries whose key is `k`: what a dict built from those entries holds for `k`. */
  function LastValue(es: seq<Entry>, k: string, n: nat): (v: Option<string>)
    requires n <= |es|
    ensures v.None? <==> forall i :: 0 <= i < n ==> es[i].key != k
    ensures v.Some? ==> exists i :: 0 <= i < n && es[i] == Entry(k, v.value) && forall j :: i < j < n ==> es[j].key != k
  {
    if n == 0 then None
    else if es[n - 1].key == k then Some(es[n - 1].value)
    else LastValue(es, k, n - 1)
  }

  /** The override dict built from the `{eo, pl}` list: the listed words are its keys, and each maps to its last listed replacement. */
  function OverrideMap(es: seq<Entry>): (m: map<string, string>)
    ensures forall e :: e in es ==> e.key in m
    ensures forall k :: k in m ==> LastValue(es, k, |es|) == Some(m[k])
  {
    map e | e in es :: e.key := LastValue(es, e.key, |es|).value
  }

  /** `_prepare_rules`: copies the letter and numeral tables, classifies and compiles every fragment, and builds the override dict. */
  function Load(rules: RuleSet): (r: Result<Converter, LoadError>)
    ensures r.Ok? <==> CompileFragments(rules.fragments).Ok?
    ensures r.Ok? ==> WellFormed(r.value)
    ensures r.Ok? ==> r.value.letters == rules.letters && r.value.numbers == rules.numbers
    ensures r.Ok? ==> r.value.overrides == OverrideMap(rules.overrides)
  {
    match CompileFragments(rules.fragments)
    case Err(e) => Err(e)
    case Ok(fs) => Ok(Converter(rules.letters, fs, OverrideMap(rules.overrides), rules.numbers))
  }

  // ---------------------------------------------------------------------------
  // The default rule document
  // ---------------------------------------------------------------------------

  const LETTERS: map<char, string> := map[
    'a' := "a", 'b' := "b", 'c' := "ts", 'ĉ' := "cz", 'd' := "d", 'e' := "e", 'f' := "f",
    'g' := "g", 'ĝ' := "dż", 'h' := "h", 'ĥ' := "ch", 'i' := "ij", 'j' := "y", 'ĵ' := "rz",
    'k' := "k", 'l' := "l", 'm' := "m", 'n' := "n", 'o' := "o", 'p' := "p", 'r' := "r",
    's' := "s", 'ŝ' := "sz", 't' := "t", 'u' := "u", 'ŭ' := "ł", 'v' := "w", 'z' := "z"]

  /**
   * The `fragments` list as `json.loads` returns it. The document sits in a
   * non-raw Python string, so the source's `\\b` reaches the JSON parser as
   * `\b`, which JSON decodes to U+0008 BACKSPACE.
   */
  const RAW_FRAGMENTS: seq<Entry> := [
    Entry("tsx", "cz"), Entry("gx", "dż"), Entry("hx", "ch"), Entry("yx", "rz"),
    Entry("sx", "sz"), Entry("ux", "ł"), Entry("atsij", "atssij"),
    Entry("ide\U{0008}", "ijde"), Entry("io\U{0008}", "ijo"), Entry("ioy\U{0008}", "ijoj"),
    Entry("ioyn\U{0008}", "ijojn"), Entry("feyo\U{0008}", "fejo"), Entry("feyoy\U{0008}", "feyoj"),
    Entry("feyoyn\U{0008}", "feyoj"),
    Entry("^ekzij", "ekzji"), Entry("tssijl", "tssil"), Entry("ijuy", "iuyy"), Entry("ijeh", "ije"),
    Entry("sijlo", "ssilo"), Entry("^sij", "syy"), Entry("tsij", "tssij"), Entry("sij", "ssij"),
    Entry("sssij", "ssij"), Entry("rijpozij", "ryypozyj"), Entry("zijs", "zyjs")]

  /** The `overrides` list, as `{eo, pl}` pairs. */
  const RAW_OVERRIDES: seq<Entry> := [
    Entry("ok", "ohk"), Entry("s-ro", "sjijnjoro"), Entry("s-ino", "sjijnjorijno"),
    Entry("ktp", "ko-to-po"), Entry("k.t.p", "ko-to-po"), Entry("atm", "antałtagmeze"),
    Entry("ptm", "posttagmeze"), Entry("bv", "bonvolu")]

  /** The `numbers` object in document order, which is the order a Python dict iterates. */
  const NUMBERS: seq<Entry> := [
    Entry("0", "nulo"), Entry("1", "unu"), Entry("2", "du"), Entry("3", "trij"), Entry("4", "kvar"),
    Entry("5", "kvijn"), Entry("6", "ses"), Entry("7", "sep"), Entry("8", "ohk"), Entry("9", "nał"),
    Entry("10", "dek"), Entry("100", "tsent"), Entry("1000", "mijl"), Entry("1000000", "mijlijono")]

  const DEFAULT_RULES: RuleSet := RuleSet(LETTERS, RAW_FRAGMENTS, RAW_OVERRIDES, NUMBERS)

  /** What `_prepare_rules` makes of the default fragments: the backspace-terminated rules are plain replacements. */
  const FRAGMENT_RULES: seq<FragmentRule> := [
    FragmentRule(Literal("tsx"), "cz"), FragmentRule(Literal("gx"), "dż"),
    FragmentRule(Literal("hx"), "ch"), FragmentRule(Literal("yx"), "rz"),
    FragmentRule(Literal("sx"), "sz"), FragmentRule(Literal("ux"), "ł"),
    FragmentRule(Literal("atsij"), "atssij"),
    FragmentRule(Literal("ide\U{0008}"), "ijde"), FragmentRule(Literal("io\U{0008}"), "ijo"),
    FragmentRule(Literal("ioy\U{0008}"), "ijoj"), FragmentRule(Literal("ioyn\U{0008}"), "ijojn"),
    FragmentRule(Literal("feyo\U{0008}"), "fejo"), FragmentRule(Literal("feyoy\U{0008}"), "feyoj"),
    FragmentRule(Literal("feyoyn\U{0008}"), "feyoj"),
    FragmentRule(AtStart("ekzij"), "ekzji"), FragmentRule(Literal("tssijl"), "tssil"),
    FragmentRule(Literal("ijuy"), "iuyy"), FragmentRule(Literal("ijeh"), "ije"),
    FragmentRule(Literal("sijlo"), "ssilo"), FragmentRule(AtStart("sij"), "syy"),
    FragmentRule(Literal("tsij"), "tssij"), FragmentRule(Literal("sij"), "ssij"),
    FragmentRule(Literal("sssij"), "ssij"), FragmentRule(Literal("rijpozij"), "ryypozyj"),
    FragmentRule(Literal("zijs"), "zyjs")]

  /** The override table as a map; `RawOverridesMap` shows it is what loading builds. */
  const OVERRIDES: map<string, string> := map[
    "ok" := "ohk", "s-ro" := "sjijnjoro", "s-ino" := "sjijnjorijno",
    "ktp" := "ko-to-po", "k.t.p" := "ko-to-po", "atm" := "antałtagmeze",
    "ptm" := "posttagmeze", "bv" := "bonvolu"]

  /** The module-level `_converter`. */
  const DEFAULT: Converter := Converter(LETTERS, FRAGMENT_RULES, OVERRIDES, NUMBERS)

  lemma RawOverrideInTable(e: Entry)
    requires e in RAW_OVERRIDES
    ensures e.key in OVERRIDES && OVERRIDES[e.key] == e.value
  {
  }

  lemma TableOverrideInRaw(k: string)
    requires k in OVERRIDES
    ensures Entry(k, OVERRIDES[k]) in RAW_OVERRIDES
  {
  }

  lemma OverrideMapWithinTable(es: seq<Entry>, m: map<string, string>)
    requires es == RAW_OVERRIDES && m == OverrideMap(es)
    ensures forall k :: k in m ==> k in OVERRIDES && m[k] == OVERRIDES[k]
  {
    forall k | k in m
      ensures k in OVERRIDES && m[k] == OVERRIDES[k]
    {
      LastValueListed(es, k, m[k]);
      RawOverrideInTable(Entry(k, m[k]));
    }
  }

  /** The value the dict keeps for a word is one the list gives it. */
  lemma LastValueListed(es: seq<Entry>, k: string, v: string)
    requires LastValue(es, k, |es|) == Some(v)
    ensures Entry(k, v) in es
  {
    var i :| 0 <= i < |es| && es[i] == Entry(k, v) && forall j :: i < j < |es| ==> es[j].key != k;
  }

  lemma TableWithinOverrideMap(es: seq<Entry>, m: map<string, string>)
    requires es == RAW_OVERRIDES && m == OverrideMap(es)
    ensures forall k :: k in OVERRIDES ==> k in m
  {
    forall k | k in OVERRIDES
      ensures k in m
    {
      TableOverrideInRaw(k);
    }
  }

  lemma SameEntries(m: map<string, string>, t: map<string, string>)
    requires forall k :: k in m ==> k in t && m[k] == t[k]
    requires forall k :: k in t ==> k in m
    ensures m == t
  {
  }

  /** Every listed word appears once, so the map built from the list is the literal table. */
  lemma RawOverridesMap(es: seq<Entry>, m: map<string, string>)
    requires es == RAW_OVERRIDES && m == OverrideMap(es)
    ensures m == OVERRIDES
  {
    OverrideMapWithinTable(es, m);
    TableWithinOverrideMap(es, m);
    SameEntries(m, OVERRIDES);
  }

  /** Fragments that each compile to the rule at the same place compile together to that list. */
  lemma {:induction false} CompileFragmentsPointwise(es: seq<Entry>, rules: seq<FragmentRule>)
    requires |es| == |rules|
    requires forall i :: 0 <= i < |es| ==> CompileFragment(es[i]) == Ok(rules[i])
    ensures CompileFragments(es) == Ok(rules)
  {
    if |es| > 0 {
      assert CompileFragment(es[0]) == Ok(rules[0]);
      CompileFragmentsPointwise(es[1..], rules[1..]);
      assert rules == [rules[0]] + rules[1..];
    }
  }

  lemma DefaultFragmentsCompileEach(raw: seq<Entry>)
    requires raw == RAW_FRAGMENTS
    ensures |raw| == |FRAGMENT_RULES|
    ensures forall i :: 0 <= i < |raw| ==> CompileFragment(raw[i]) == Ok(FRAGMENT_RULES[i])
  {
    forall i | 0 <= i < |raw|
      ensures CompileFragment(raw[i]) == Ok(FRAGMENT_RULES[i])
    {
      if i < 4 {
        FragmentsCompile0To3(i);
      } else if i < 8 {
        FragmentsCompile4To7(i);
      } else if i < 12 {
        FragmentsCompile8To11(i);
      } else if i < 14 {
        FragmentsCompile12To13(i);
      } else if i < 16 {
        FragmentsCompile14To15(i);
      } else if i < 20 {
        FragmentsCompile16To19(i);
      } else {
        FragmentsCompile20To24(i);
      }
    }
  }

  /** Every default fragment compiles, to the rule listed at the same place in `FRAGMENT_RULES`. */
  lemma DefaultFragmentsCompile(raw: seq<Entry>)
    requires raw == RAW_FRAGMENTS
    ensures CompileFragments(raw) == Ok(FRAGMENT_RULES)
  {
    DefaultFragmentsCompileEach(raw);
    CompileFragmentsPointwise(raw, FRAGMENT_RULES);
  }

  /** Loading the default document succeeds and yields `DEFAULT`. */
  lemma DefaultRulesLoad(rules: RuleSet)
    requires rules == DEFAULT_RULES
    ensures Load(rules) == Ok(DEFAULT)
  {
    DefaultFragmentsCompile(rules.fragments);
    RawOverridesMap(rules.overrides, OverrideMap(rules.overrides));
  }

  /** A match text that neither starts with `^` nor ends with `b` compiles to a plain replacement. */
  lemma LiteralRuleCompiles(e: Entry)
    requires |e.key| > 0 && e.key[0] != '^' && e.key[|e.key| - 1] != 'b'
    ensures CompileFragment(e) == Ok(FragmentRule(Literal(e.key), e.value))
  {
    assert e.key[..1][0] == e.key[0];
    assert |e.key| >= 2 ==> e.key[|e.key| - 2..][1] == e.key[|e.key| - 1];
  }

  /** `^` followed by plain text, with a backslash-free replacement, compiles to an anchored rule. */
  lemma AnchoredRuleCompiles(e: Entry, t: string)
    requires e.key == "^" + t && PlainText(t) && '\\' !in e.value
    ensures CompileFragment(e) == Ok(FragmentRule(AtStart(t), e.value))
  {
    assert e.key[1..] == t;
  }

  lemma FragmentsCompile0To3(i: nat)
    requires 0 <= i < 4
    ensures CompileFragment(RAW_FRAGMENTS[i]) == Ok(FRAGMENT_RULES[i])
  {
    if i == 0 {
      LiteralRuleCompiles(RAW_FRAGMENTS[0]);
    } else if i == 1 {
      LiteralRuleCompiles(RAW_FRAGMENTS[1]);
    } else if i == 2 {
      LiteralRuleCompiles(RAW_FRAGMENTS[2]);
    } else if i == 3 {
      LiteralRuleCompiles(RAW_FRAGMENTS[3]);
    }
  }

  lemma FragmentsCompile4To7(i: nat)
    requires 4 <= i < 8
    ensures CompileFragment(RAW_FRAGMENTS[i]) == Ok(FRAGMENT_RULES[i])
  {
    if i == 4 {
      LiteralRuleCompiles(RAW_FRAGMENTS[4]);
    } else if i == 5 {
      LiteralRuleCompiles(RAW_FRAGMENTS[5]);
    } else if i == 6 {
      LiteralRuleCompiles(RAW_FRAGMENTS[6]);
    } else if i == 7 {
      LiteralRuleCompiles(RAW_FRAGMENTS[7]);
    }
  }

  lemma FragmentsCompile8To11(i: nat)
    requires 8 <= i < 12
    ensures CompileFragment(RAW_FRAGMENTS[i]) == Ok(FRAGMENT_RULES[i])
  {
    if i == 8 {
      LiteralRuleCompiles(RAW_FRAGMENTS[8]);
    } else if i == 9 {
      LiteralRuleCompiles(RAW_FRAGMENTS[9]);
    } else if i == 10 {
      LiteralRuleCompiles(RAW_FRAGMENTS[10]);
    } else if i == 11 {
      LiteralRuleCompiles(RAW_FRAGMENTS[11]);
    }
  }

  lemma FragmentsCompile12To13(i: nat)
    requires 12 <= i < 14
    ensures CompileFragment(RAW_FRAGMENTS[i]) == Ok(FRAGMENT_RULES[i])
  {
    if i == 12 {
      LiteralRuleCompiles(RAW_FRAGMENTS[12]);
    } else {
      LiteralRuleCompiles(RAW_FRAGMENTS[13]);
    }
  }

  /** Lower-case ASCII letters have no special meaning to `re`. */
  lemma LowercaseIsPlain(t: string)
    requires forall i :: 0 <= i < |t| ==> IsAsciiLower(t[i])
    ensures PlainText(t)
  {
  }

  lemma FragmentCompiles14()
    ensures CompileFragment(RAW_FRAGMENTS[14]) == Ok(FRAGMENT_RULES[14])
  {
    LowercaseIsPlain("ekzij");
    assert RAW_FRAGMENTS[14] == Entry("^" + "ekzij", "ekzji");
    AnchoredRuleCompiles(RAW_FRAGMENTS[14], "ekzij");
  }

  lemma FragmentsCompile14To15(i: nat)
    requires 14 <= i < 16
    ensures CompileFragment(RAW_FRAGMENTS[i]) == Ok(FRAGMENT_RULES[i])
  {
    if i == 14 {
      FragmentCompiles14();
    } else {
      LiteralRuleCompiles(RAW_FRAGMENTS[15]);
    }
  }

  lemma FragmentsCompile16To19(i: nat)
    requires 16 <= i < 20
    ensures CompileFragment(RAW_FRAGMENTS[i]) == Ok(FRAGMENT_RULES[i])
  {
    if i == 16 {
      LiteralRuleCompiles(RAW_FRAGMENTS[16]);
    } else if i == 17 {
      LiteralRuleCompiles(RAW_FRAGMENTS[17]);
    } else if i == 18 {
      LiteralRuleCompiles(RAW_FRAGMENTS[18]);
    } else if i == 19 {
      AnchoredRuleCompiles(RAW_FRAGMENTS[19], "sij");
    }
  }

  lemma FragmentsCompile20To24(i: nat)
    requires 20 <= i < |RAW_FRAGMENTS|
    ensures CompileFragment(RAW_FRAGMENTS[i]) == Ok(FRAGMENT_RULES[i])
  {
    if i == 20 {
      LiteralRuleCompiles(RAW_FRAGMENTS[20]);
    } else if i == 21 {
      LiteralRuleCompiles(RAW_FRAGMENTS[21]);
    } else if i == 22 {
      LiteralRuleCompiles(RAW_FRAGMENTS[22]);
    } else if i == 23 {
      LiteralRuleCompiles(RAW_FRAGMENTS[23]);
    } else if i == 24 {
      LiteralRuleCompiles(RAW_FRAGMENTS[24]);
    }
  }

  // ---------------------------------------------------------------------------
  // The four stages
  // ---------------------------------------------------------------------------

  /** A word after the override lookup: its lowercase form's replacement, or the word itself. */
  function OverrideWord(overrides: map<string, string>, w: string): (r: string)
    ensures r == w || r in overrides.Values
  {
    if Lower(w) in overrides then overrides[Lower(w)] else w
  }

  /** Stage 1: split on whitespace, look every word up, join with single spaces. */
  function OverrideStage(overrides: map<string, string>, text: string): string {
    var ws := Words(text);
    JoinWith(seq(|ws|, i requires 0 <= i < |ws| => OverrideWord(overrides, ws[i])), " ")
  }

  /** Stage 2 (and the literal half of stage 3): `text = text.replace(key, value)` for every entry, in order. */
  function ReplaceEach(es: seq<Entry>, s: string): string {
    if |es| == 0 then s else ReplaceEach(es[1..], ReplaceAll(s, es[0].key, es[0].value))
  }

  /** A word boundary at position `p`, just after a character: exactly one of its neighbours is a word character. */
  predicate BoundaryAfter(s: string, p: nat)
    requires 0 < p <= |s|
  {
    IsWordChar(s[p - 1]) != (p < |s| && IsWordChar(s[p]))
  }

  /** `re.sub(t + r'\b', rep, s)` for plain, non-empty `t`: every occurrence followed by a word boundary, leftmost first, without overlaps. */
  function SubAtWordEnd(s: string, t: string, rep: string): string
    requires |t| > 0
    decreases |s|
  {
    if |s| < |t| then s
    else if s[..|t|] == t && BoundaryAfter(s, |t|) then rep + SubAtWordEnd(s[|t|..], t, rep)
    else [s[0]] + SubAtWordEnd(s[1..], t, rep)
  }

  /** One fragment rule applied to the whole text. */
  function ApplyFragment(s: string, r: FragmentRule): string
    requires WellFormedRule(r)
  {
    match r.pattern
    case Literal(t) => ReplaceAll(s, t, r.replace)
    case AtStart(t) => if StartsWith(s, t) then r.replace + s[|t|..] else s
    case AtWordEnd(t) => SubAtWordEnd(s, t, r.replace)
  }

  /** Stage 3: the fragment rules in declared order, each applied to the previous one's output. */
  function ApplyFragments(rules: seq<FragmentRule>, s: string): string
    requires WellFormedRules(rules)
  {
    if |rules| == 0 then s else ApplyFragments(rules[1..], ApplyFragment(s, rules[0]))
  }

  /** Stage 4: one left-to-right pass emitting each character's table value, or the character itself. */
  function LetterStage(letters: map<char, string>, s: string): string {
    if |s| == 0 then ""
    else (if s[0] in letters then letters[s[0]] else [s[0]]) + LetterStage(letters, s[1..])
  }

  /** `VocxConverter.convert`. */
  function Convert(c: Converter, text: string): string
    requires WellFormed(c)
  {
    LetterStage(c.letters, ApplyFragments(c.fragments, ReplaceEach(c.numbers, OverrideStage(c.overrides, text))))
  }

  /** `convert_text`: `convert` on the module-level converter. */
  function ConvertText(text: string): string {
    Convert(DEFAULT, text)
  }

  // ---------------------------------------------------------------------------
  // Stage 1: overrides
  // ---------------------------------------------------------------------------

  /** The sample words are single words, and what the overrides make of them has no digit or fragment key. */
  lemma SampleWords()
    ensures IsWord("ok") && IsWord("bv") && IsWord("radio")
    ensures Untouched("ohk") && Untouched("bonvolu") && Untouched("radio")
  {
  }

  /** Three sample words under the default overrides: "ok" and "bv" are keys, "radio" is none. */
  lemma OverrideSamples(overrides: map<string, string>)
    requires overrides == OVERRIDES
    ensures OverrideWord(overrides, "ok") == "ohk"
    ensures OverrideWord(overrides, "bv") == "bonvolu"
    ensures OverrideWord(overrides, "radio") == "radio"
  {
    assert OverrideWord(overrides, "ok") == "ohk" by {
      OverrideOfLowercase(overrides, "ok");
    }
    assert OverrideWord(overrides, "bv") == "bonvolu" by {
      OverrideOfLowercase(overrides, "bv");
    }
    assert OverrideWord(overrides, "radio") == "radio" by {
      OverrideOfLowercase(overrides, "radio");
    }
  }

  /** A word without capitals is looked up as it is: a key becomes its value, any other word stays. */
  lemma OverrideOfLowercase(overrides: map<string, string>, w: string)
    requires forall i :: 0 <= i < |w| ==> !IsAsciiUpper(w[i]) && w[i] != KELVIN_SIGN
    ensures OverrideWord(overrides, w) == if w in overrides then overrides[w] else w
  {
    LowerOfLowercase(w);
  }

  /**
   * The override stage keeps the words of the text, in order, and rewrites
   * each one on its own: a word whose lowercase form is a key becomes that
   * key's value, every other word is kept. The result is exactly its own
   * words joined by single spaces, so leading, trailing and repeated
   * whitespace is gone.
   */
  lemma OverrideStageRewritesWholeWords(overrides: map<string, string>, text: string)
    requires forall k :: k in overrides ==> IsWord(overrides[k])
    ensures var ws := Words(text); var out := Words(OverrideStage(overrides, text));
      && |out| == |ws|
      && (forall i :: 0 <= i < |ws| && Lower(ws[i]) in overrides ==> out[i] == overrides[Lower(ws[i])])
      && (forall i :: 0 <= i < |ws| && Lower(ws[i]) !in overrides ==> out[i] == ws[i])
    ensures JoinWith(Words(OverrideStage(overrides, text)), " ") == OverrideStage(overrides, text)
  {
    var ws := Words(text);
    var mapped := seq(|ws|, i requires 0 <= i < |ws| => OverrideWord(overrides, ws[i]));
    WordsOfJoin(mapped);
  }

  /** Every key of the default override dict is a listed word of at least two characters, and every value is a single word. */
  lemma DefaultOverrides(m: map<string, string>)
    requires m == OVERRIDES
    ensures forall k :: k in m ==> |k| >= 2 && IsWord(m[k])
  {
    RawOverridesShape();
    forall k | k in m
      ensures |k| >= 2 && IsWord(m[k])
    {
      TableOverrideInRaw(k);
    }
  }

  lemma RawOverridesShape()
    ensures forall e :: e in RAW_OVERRIDES ==> |e.key| >= 2 && IsWord(e.value)
  {
    RawOverrideKeysLong();
    RawOverrideValuesAreWords();
  }

  lemma RawOverrideKeysLong()
    ensures forall e :: e in RAW_OVERRIDES ==> |e.key| >= 2
  {
  }

  lemma ShortOverrideValuesAreWords()
    ensures IsWord("ohk") && IsWord("sjijnjoro") && IsWord("ko-to-po") && IsWord("bonvolu")
  {
  }

  lemma LongOverrideValuesAreWords()
    ensures IsWord("sjijnjorijno") && IsWord("antałtagmeze") && IsWord("posttagmeze")
  {
  }

  lemma RawOverrideValuesAreWords()
    ensures forall e :: e in RAW_OVERRIDES ==> IsWord(e.value)
  {
    ShortOverrideValuesAreWords();
    LongOverrideValuesAreWords();
  }

  // ---------------------------------------------------------------------------
  // Stage 2: numerals
  // ---------------------------------------------------------------------------

  /** The single-digit numerals, "0" to "9", which come first in the table. */
  const DIGIT_NUMERALS: seq<Entry> := NUMBERS[..10]

  /** The multi-digit numerals "10", "100", "1000" and "1000000". */
  const LONG_NUMERALS: seq<Entry> := NUMBERS[10..]

  /** The word the table gives a single ASCII digit. */
  function DigitWord(c: char): string
    requires IsAsciiDigit(c)
  {
    NUMBERS[c as int - '0' as int].value
  }

  /** The text with every ASCII digit replaced by its word, one character at a time. */
  function SpellDigits(s: string): string {
    if |s| == 0 then ""
    else (if IsAsciiDigit(s[0]) then DigitWord(s[0]) else [s[0]]) + SpellDigits(s[1..])
  }

  lemma DigitEntry(j: nat)
    requires j < 10
    ensures NUMBERS[j].key == [('0' as int + j) as char]
    ensures forall c :: c in NUMBERS[j].value ==> !IsAsciiDigit(c)
  {
    if j == 0 {
      assert NUMBERS[0].key == "0";
    } else if j == 1 {
      assert NUMBERS[1].key == "1";
    } else if j == 2 {
      assert NUMBERS[2].key == "2";
    } else if j == 3 {
      assert NUMBERS[3].key == "3";
    } else if j == 4 {
      assert NUMBERS[4].key == "4";
    } else if j == 5 {
      assert NUMBERS[5].key == "5";
    } else if j == 6 {
      assert NUMBERS[6].key == "6";
    } else if j == 7 {
      assert NUMBERS[7].key == "7";
    } else if j == 8 {
      assert NUMBERS[8].key == "8";
    } else if j == 9 {
      assert NUMBERS[9].key == "9";
    }
  }

  lemma LongNumeralsStartWithOne(j: nat)
    requires j < |LONG_NUMERALS|
    ensures |LONG_NUMERALS[j].key| > 0 && LONG_NUMERALS[j].key[0] == '1'
  {
    if j == 0 {
      assert LONG_NUMERALS[0] == Entry("10", "dek");
    } else if j == 1 {
      assert LONG_NUMERALS[1] == Entry("100", "tsent");
    } else if j == 2 {
      assert LONG_NUMERALS[2] == Entry("1000", "mijl");
    } else {
      assert LONG_NUMERALS[3] == Entry("1000000", "mijlijono");
    }
  }

  lemma {:induction false} ReplaceEachAppend(a: seq<Entry>, b: seq<Entry>, s: string)
    ensures ReplaceEach(a + b, s) == ReplaceEach(b, ReplaceEach(a, s))
  {
    if |a| > 0 {
      assert (a + b)[0] == a[0];
      assert (a + b)[1..] == a[1..] + b;
      ReplaceEachAppend(a[1..], b, ReplaceAll(s, a[0].key, a[0].value));
    } else {
      assert a + b == b;
    }
  }

  /** Entries whose numeral cannot occur in the text leave it unchanged. */
  lemma {:induction false} ReplaceEachUntouched(es: seq<Entry>, s: string)
    requires forall j :: 0 <= j < |es| ==> HasCharOutside(es[j].key, s)
    ensures ReplaceEach(es, s) == s
  {
    if |es| > 0 {
      ReplaceAllCharOutside(s, es[0].key, es[0].value);
      ReplaceEachUntouched(es[1..], s);
    }
  }

  /** With one-character keys only, the replacements act on each part of a text independently. */
  lemma {:induction false} ReplaceEachCharKeysAppend(es: seq<Entry>, a: string, b: string)
    requires forall j :: 0 <= j < |es| ==> |es[j].key| == 1
    ensures ReplaceEach(es, a + b) == ReplaceEach(es, a) + ReplaceEach(es, b)
  {
    if |es| > 0 {
      var k := es[0].key;
      assert k == [k[0]];
      ReplaceCharAppend(a, b, k[0], es[0].value);
      ReplaceEachCharKeysAppend(es[1..], ReplaceAll(a, k, es[0].value), ReplaceAll(b, k, es[0].value));
    }
  }

  lemma DigitNumeralsSpellOne(x: char)
    ensures ReplaceEach(DIGIT_NUMERALS, [x]) == SpellDigits([x])
  {
    if IsAsciiDigit(x) {
      var k := x as int - '0' as int;
      var w := DigitWord(x);
      DigitEntry(k);
      assert DIGIT_NUMERALS == DIGIT_NUMERALS[..k] + DIGIT_NUMERALS[k..];
      ReplaceEachAppend(DIGIT_NUMERALS[..k], DIGIT_NUMERALS[k..], [x]);
      forall j | 0 <= j < k
        ensures HasCharOutside(DIGIT_NUMERALS[..k][j].key, [x])
      {
        DigitEntry(j);
      }
      ReplaceEachUntouched(DIGIT_NUMERALS[..k], [x]);
      assert [x][..1] == [x];
      assert ReplaceAll([x], [x], w) == w;
      var rest := DIGIT_NUMERALS[k + 1..];
      forall j | 0 <= j < |rest|
        ensures HasCharOutside(rest[j].key, w)
      {
        assert rest[j] == DIGIT_NUMERALS[k + 1 + j];
        DigitEntry(k + 1 + j);
      }
      ReplaceEachUntouched(rest, w);
      assert DIGIT_NUMERALS[k..][1..] == DIGIT_NUMERALS[k + 1..];
    } else {
      forall j | 0 <= j < 10
        ensures HasCharOutside(DIGIT_NUMERALS[j].key, [x])
      {
        DigitEntry(j);
      }
      ReplaceEachUntouched(DIGIT_NUMERALS, [x]);
    }
  }

  lemma {:induction false} DigitNumeralsSpellDigits(s: string)
    ensures ReplaceEach(DIGIT_NUMERALS, s) == SpellDigits(s)
  {
    if |s| > 0 {
      var x, t := s[0], s[1..];
      assert s == [x] + t;
      DigitKeysSingle();
      ReplaceEachCharKeysAppend(DIGIT_NUMERALS, [x], t);
      DigitNumeralsSpellOne(x);
      DigitNumeralsSpellDigits(t);
      SpellDigitsCons(x, t);
    } else {
      forall j | 0 <= j < 10
        ensures HasCharOutside(DIGIT_NUMERALS[j].key, s)
      {
        DigitEntry(j);
      }
      ReplaceEachUntouched(DIGIT_NUMERALS, s);
    }
  }

  lemma DigitKeysSingle()
    ensures forall j :: 0 <= j < |DIGIT_NUMERALS| ==> |DIGIT_NUMERALS[j].key| == 1
  {
    forall j | 0 <= j < |DIGIT_NUMERALS|
      ensures |DIGIT_NUMERALS[j].key| == 1
    {
      DigitEntry(j);
    }
  }

  /** Spelling is character by character. */
  lemma SpellDigitsCons(x: char, t: string)
    ensures SpellDigits([x] + t) == SpellDigits([x]) + SpellDigits(t)
  {
    assert ([x] + t)[0] == x && ([x] + t)[1..] == t;
    assert [x][1..] == "";
  }

  /** Spelled-out text holds no ASCII digit, since no digit word does. */
  lemma {:induction false} SpellDigitsHasNoDigit(s: string)
    ensures forall i :: 0 <= i < |SpellDigits(s)| ==> !IsAsciiDigit(SpellDigits(s)[i])
  {
    if |s| > 0 {
      SpellDigitsHasNoDigit(s[1..]);
      if IsAsciiDigit(s[0]) {
        DigitEntry(s[0] as int - '0' as int);
      }
      var head := if IsAsciiDigit(s[0]) then DigitWord(s[0]) else [s[0]];
      forall i | 0 <= i < |SpellDigits(s)|
        ensures !IsAsciiDigit(SpellDigits(s)[i])
      {
        if i >= |head| {
          assert SpellDigits(s)[i] == SpellDigits(s[1..])[i - |head|];
        } else {
          assert SpellDigits(s)[i] == head[i];
        }
      }
    }
  }

  /**
   * The numeral stage, run in table order, spells every ASCII digit out on
   * its own and changes nothing else: the single digits come first, so by
   * the time "10", "100", "1000" and "1000000" are tried, no digit is left
   * for them to match.
   */
  lemma NumeralStageSpellsDigits(s: string)
    ensures ReplaceEach(NUMBERS, s) == SpellDigits(s)
    ensures ReplaceEach(NUMBERS, s) == ReplaceEach(DIGIT_NUMERALS, s)
    ensures forall i :: 0 <= i < |ReplaceEach(NUMBERS, s)| ==> !IsAsciiDigit(ReplaceEach(NUMBERS, s)[i])
  {
    assert NUMBERS == DIGIT_NUMERALS + LONG_NUMERALS;
    ReplaceEachAppend(DIGIT_NUMERALS, LONG_NUMERALS, s);
    DigitNumeralsSpellDigits(s);
    var t := SpellDigits(s);
    SpellDigitsHasNoDigit(s);
    forall j | 0 <= j < |LONG_NUMERALS|
      ensures HasCharOutside(LONG_NUMERALS[j].key, t)
    {
      LongNumeralsStartWithOne(j);
      assert forall i :: 0 <= i < |t| ==> t[i] != '1';
    }
    ReplaceEachUntouched(LONG_NUMERALS, t);
  }

  // ---------------------------------------------------------------------------
  // Stage 3: fragments
  // ---------------------------------------------------------------------------

  /** The fragment rules run strictly in sequence: a longer list is the shorter one followed by the rest, on its output. */
  lemma {:induction false} ApplyFragmentsAppend(a: seq<FragmentRule>, b: seq<FragmentRule>, s: string)
    requires WellFormedRules(a) && WellFormedRules(b)
    ensures WellFormedRules(a + b)
    ensures ApplyFragments(a + b, s) == ApplyFragments(b, ApplyFragments(a, s))
  {
    if |a| > 0 {
      assert (a + b)[0] == a[0];
      assert (a + b)[1..] == a[1..] + b;
      ApplyFragmentsAppend(a[1..], b, ApplyFragment(s, a[0]));
    } else {
      assert a + b == b;
    }
  }

  lemma {:induction false} SubAtWordEndMissingChar(s: string, t: string, rep: string, j: nat)
    requires j < |t| && t[j] !in s
    ensures SubAtWordEnd(s, t, rep) == s
    decreases |s|
  {
    if |s| >= |t| {
      assert s[..|t|][j] == s[j];
      SubAtWordEndMissingChar(s[1..], t, rep, j);
      assert s == [s[0]] + s[1..];
    }
  }

  /** A rule whose pattern text has a character the text lacks does not fire, whatever its shape. */
  lemma FragmentCharOutside(s: string, r: FragmentRule)
    requires WellFormedRule(r) && HasCharOutside(r.pattern.text, s)
    ensures ApplyFragment(s, r) == s
  {
    var t := r.pattern.text;
    var j := HasCharOutsideWitness(t, s);
    match r.pattern
    case Literal(_) => ReplaceAllCharOutside(s, t, r.replace);
    case AtStart(_) =>
      assert |t| <= |s| ==> s[..|t|][j] == s[j];
    case AtWordEnd(_) => SubAtWordEndMissingChar(s, t, r.replace, j);
  }

  lemma {:induction false} FragmentsUntouched(rules: seq<FragmentRule>, s: string)
    requires WellFormedRules(rules)
    requires forall r :: r in rules ==> HasCharOutside(r.pattern.text, s)
    ensures ApplyFragments(rules, s) == s
  {
    if |rules| > 0 {
      FragmentCharOutside(s, rules[0]);
      assert forall r :: r in rules[1..] ==> r in rules;
      FragmentsUntouched(rules[1..], s);
    }
  }

  /** A rule applied to a text shorter than its pattern text changes nothing. */
  lemma FragmentShortText(s: string, r: FragmentRule)
    requires WellFormedRule(r) && |s| < |r.pattern.text|
    ensures ApplyFragment(s, r) == s
  {
  }

  lemma {:induction false} FragmentsShortText(rules: seq<FragmentRule>, s: string)
    requires WellFormedRules(rules)
    requires forall r :: r in rules ==> |s| < |r.pattern.text|
    ensures ApplyFragments(rules, s) == s
  {
    if |rules| > 0 {
      FragmentShortText(s, rules[0]);
      assert forall r :: r in rules[1..] ==> r in rules;
      FragmentsShortText(rules[1..], s);
    }
  }

  /**
   * As loaded, none of the default fragments is a word-end rule: the seven
   * written with `\\b` end in U+0008 and are plain replacements.
   */
  lemma WordEndRulesAreLiteral(rules: RuleSet)
    requires rules == DEFAULT_RULES
    ensures Load(rules).Ok?
    ensures forall r :: r in Load(rules).value.fragments ==> !r.pattern.AtWordEnd?
    ensures forall i :: 7 <= i < 14 ==> BackspaceLiteral(Load(rules).value.fragments[i])
  {
    DefaultRulesLoad(rules);
    NoDefaultWordEndRule();
    BackspaceRules();
  }

  lemma NoDefaultWordEndRule()
    ensures forall r :: r in FRAGMENT_RULES ==> !r.pattern.AtWordEnd?
  {
  }

  lemma BackspaceRules()
    ensures forall i :: 7 <= i < 14 ==> BackspaceLiteral(FRAGMENT_RULES[i])
  {
  }

  /** A plain replacement whose text ends in U+0008. */
  predicate BackspaceLiteral(r: FragmentRule) {
    r.pattern.Literal? && |r.pattern.text| > 0 && r.pattern.text[|r.pattern.text| - 1] == '\U{0008}'
  }

  /** The `^sij` rule rewrites the start of the text only, once, and not the start of a later word. */
  lemma AnchoredRuleOnlyAtTextStart()
    ensures ApplyFragment("sij sij", FRAGMENT_RULES[19]) == "syy sij"
    ensures ApplyFragment("a sij", FRAGMENT_RULES[19]) == "a sij"
  {
    assert FRAGMENT_RULES[19] == FragmentRule(AtStart("sij"), "syy");
    assert "sij sij"[..3] == "sij";
    assert "sij sij"[3..] == " sij";
    assert "a sij"[..3] != "sij" by {
      assert "a sij"[..3][0] == 'a';
    }
  }

  // ---------------------------------------------------------------------------
  // Stage 4: letters
  // ---------------------------------------------------------------------------

  /** The letter pass treats every character on its own: it maps a concatenation to the concatenation of the results. */
  lemma {:induction false} LetterStageAppend(letters: map<char, string>, a: string, b: string)
    ensures LetterStage(letters, a + b) == LetterStage(letters, a) + LetterStage(letters, b)
  {
    if |a| > 0 {
      assert (a + b)[0] == a[0];
      assert (a + b)[1..] == a[1..] + b;
      LetterStageAppend(letters, a[1..], b);
    } else {
      assert a + b == b;
    }
  }

  /** One character becomes its table value, or stays as it is when the table has no entry for it. */
  lemma LetterStageOne(letters: map<char, string>, c: char)
    ensures LetterStage(letters, [c]) == if c in letters then letters[c] else [c]
  {
    assert [c][1..] == "";
  }

  /** When every table value is non-empty the letter pass never shortens the text. */
  lemma {:induction false} LetterStageLength(letters: map<char, string>, s: string)
    requires forall c :: c in letters ==> |letters[c]| > 0
    ensures |LetterStage(letters, s)| >= |s|
  {
    if |s| > 0 {
      LetterStageLength(letters, s[1..]);
    }
  }

  /** Characters without a table entry (capitals, q, w, x, y, digits, punctuation, whitespace) are copied unchanged. */
  lemma {:induction false} LetterStagePassThrough(letters: map<char, string>, s: string)
    requires forall i :: 0 <= i < |s| ==> s[i] !in letters
    ensures LetterStage(letters, s) == s
  {
    if |s| > 0 {
      LetterStagePassThrough(letters, s[1..]);
      assert s == [s[0]] + s[1..];
    }
  }

  /** A character whose table value is itself, or that has no entry, is copied by the letter pass. */
  predicate KeptByLetters(letters: map<char, string>, s: string) {
    forall i :: 0 <= i < |s| ==> s[i] !in letters || letters[s[i]] == [s[i]]
  }

  /** Text whose every character is kept comes through the letter pass unchanged. */
  lemma {:induction false} LetterStageKept(letters: map<char, string>, s: string)
    requires KeptByLetters(letters, s)
    ensures LetterStage(letters, s) == s
  {
    if |s| > 0 {
      assert KeptByLetters(letters, s[1..]) by {
        forall i | 0 <= i < |s[1..]| ensures s[1..][i] == s[i + 1] { }
      }
      LetterStageKept(letters, s[1..]);
      assert s == [s[0]] + s[1..];
    }
  }

  /** Between two kept pieces, the letter pass rewrites the middle alone. */
  lemma {:induction false} LetterStageBetween(letters: map<char, string>, a: string, m: string, b: string, u: string, s: string, t: string)
    requires KeptByLetters(letters, a) && KeptByLetters(letters, b) && LetterStage(letters, m) == u
    requires s == a + m + b && t == a + u + b
    ensures LetterStage(letters, s) == t
  {
    LetterStageKept(letters, a);
    LetterStageKept(letters, b);
    LetterStageAppend(letters, a + m, b);
    LetterStageAppend(letters, a, m);
  }

  /** What the letter pass makes of one character. */
  function LetterImage(letters: map<char, string>, c: char): string {
    if c in letters then letters[c] else [c]
  }

  /** The letter pass is the concatenation of the characters' images, in order. */
  lemma {:induction false} LetterStageImages(letters: map<char, string>, s: string, images: seq<string>, t: string)
    requires |images| == |s| && forall i :: 0 <= i < |s| ==> images[i] == LetterImage(letters, s[i])
    requires t == Concat(images)
    ensures LetterStage(letters, s) == t
  {
    if |s| > 0 {
      LetterStageImages(letters, s[1..], images[1..], Concat(images[1..]));
    }
  }

  /** Emitted values are not scanned again: "i" gives "ij", and its new 'j' does not go on to become 'y'. */
  lemma LetterPassDoesNotRescan()
    ensures LetterStage(LETTERS, "i") == "ij"
    ensures LetterStage(LETTERS, "j") == "y"
    ensures LetterStage(LETTERS, "ij") == "ijy"
  {
    LetterStageOne(LETTERS, 'i');
    LetterStageOne(LETTERS, 'j');
    assert "ij" == "i" + "j";
    LetterStageAppend(LETTERS, "i", "j");
  }

  lemma DefaultLettersNonEmpty()
    ensures forall c :: c in LETTERS ==> |LETTERS[c]| > 0
  {
  }

  // ---------------------------------------------------------------------------
  // The whole pipeline
  // ---------------------------------------------------------------------------

  lemma DefaultWellFormed()
    ensures WellFormed(DEFAULT)
  {
  }

  /** Empty text has no words, so the override stage gives empty text. */
  lemma OverrideStageEmpty(overrides: map<string, string>)
    ensures OverrideStage(overrides, "") == ""
  {
    assert Words("") == [];
  }

  /** Empty text converts to empty text: it has no words, and every later stage maps empty to empty. */
  lemma ConvertEmpty()
    ensures ConvertText("") == ""
  {
    DefaultWellFormed();
    OverrideStageEmpty(DEFAULT.overrides);
    NumeralStageSpellsDigits("");
    DefaultPatternsLong(DEFAULT.fragments);
    FragmentsShortText(FRAGMENT_RULES, "");
  }

  /** A single word goes through the override stage on its own. */
  lemma OverrideStageOneWord(overrides: map<string, string>, w: string)
    requires IsWord(w)
    ensures OverrideStage(overrides, w) == OverrideWord(overrides, w)
  {
    WordsOfJoin([w]);
    var mapped := seq(1, i requires 0 <= i < 1 => OverrideWord(overrides, [w][i]));
    assert mapped == [OverrideWord(overrides, w)];
  }

  lemma {:induction false} SpellDigitsNoDigit(s: string)
    requires forall i :: 0 <= i < |s| ==> !IsAsciiDigit(s[i])
    ensures SpellDigits(s) == s
  {
    if |s| > 0 {
      SpellDigitsNoDigit(s[1..]);
      assert s == [s[0]] + s[1..];
    }
  }

  /**
   * A single character that is neither whitespace nor a digit converts to
   * its letter-table value, or to itself when the table has none: no
   * override word, numeral or fragment pattern is that short.
   */
  lemma ConvertSingleCharacter(cv: Converter, c: char)
    requires cv == DEFAULT
    requires !IsSpace(c) && !IsAsciiDigit(c)
    ensures WellFormed(cv)
    ensures Convert(cv, [c]) == if c in cv.letters then cv.letters[c] else [c]
  {
    SingleCharacterReachesLetters(cv, c);
    LetterStageOne(cv.letters, c);
  }

  /** The override, numeral and fragment stages leave a single non-digit character alone. */
  lemma SingleCharacterReachesLetters(cv: Converter, c: char)
    requires cv == DEFAULT
    requires !IsSpace(c) && !IsAsciiDigit(c)
    ensures WellFormed(cv) && Convert(cv, [c]) == LetterStage(cv.letters, [c])
  {
    DefaultWellFormed();
    OneCharacterNotOverridden(cv.overrides, c);
    DefaultNumeralsKeepDigitFree(cv, [c]);
    OneCharacterNoFragment(cv.fragments, c);
  }

  /** No default override word is a single character. */
  lemma OneCharacterNotOverridden(overrides: map<string, string>, c: char)
    requires overrides == OVERRIDES && !IsSpace(c)
    ensures OverrideStage(overrides, [c]) == [c]
  {
    OverrideStageOneWord(overrides, [c]);
    DefaultOverrides(overrides);
    assert |Lower([c])| == 1;
  }

  /** No default fragment pattern is a single character. */
  lemma OneCharacterNoFragment(rules: seq<FragmentRule>, c: char)
    requires rules == FRAGMENT_RULES
    ensures ApplyFragments(rules, [c]) == [c]
  {
    DefaultPatternsLong(rules);
    FragmentsShortText(rules, [c]);
  }

  /** The default numeral stage leaves text without digits alone. */
  lemma DefaultNumeralsKeepDigitFree(cv: Converter, v: string)
    requires cv == DEFAULT
    requires forall i :: 0 <= i < |v| ==> !IsAsciiDigit(v[i])
    ensures ReplaceEach(cv.numbers, v) == v
  {
    NumeralStageSpellsDigits(v);
    SpellDigitsNoDigit(v);
  }

  /** The characters one of which every default fragment pattern contains. */
  predicate IsFragmentKey(c: char) {
    c == 'x' || c == 's' || c == 'j' || c == '\U{0008}'
  }

  predicate HasFragmentKey(t: string) {
    'x' in t || 's' in t || 'j' in t || '\U{0008}' in t
  }

  lemma DefaultRuleKeyedLow(i: nat)
    requires i < 13
    ensures WellFormedRule(FRAGMENT_RULES[i]) && HasFragmentKey(FRAGMENT_RULES[i].pattern.text)
  {
  }

  lemma DefaultRuleKeyedHigh(i: nat)
    requires 13 <= i < |FRAGMENT_RULES|
    ensures WellFormedRule(FRAGMENT_RULES[i]) && HasFragmentKey(FRAGMENT_RULES[i].pattern.text)
  {
  }

  /** Every default rule is well formed and its pattern holds one of the fragment keys. */
  lemma DefaultPatternsHaveKeys(rules: seq<FragmentRule>)
    requires rules == FRAGMENT_RULES
    ensures WellFormedRules(rules)
    ensures forall r :: r in rules ==> HasFragmentKey(r.pattern.text)
  {
    forall r | r in rules
      ensures WellFormedRule(r) && HasFragmentKey(r.pattern.text)
    {
      var i :| 0 <= i < |rules| && rules[i] == r;
      if i < 13 {
        DefaultRuleKeyedLow(i);
      } else {
        DefaultRuleKeyedHigh(i);
      }
    }
  }

  lemma DefaultPatternLongLow(i: nat)
    requires i < 13
    ensures |FRAGMENT_RULES[i].pattern.text| >= 2
  {
  }

  lemma DefaultPatternLongHigh(i: nat)
    requires 13 <= i < |FRAGMENT_RULES|
    ensures |FRAGMENT_RULES[i].pattern.text| >= 2
  {
  }

  /** No default pattern is shorter than two characters. */
  lemma DefaultPatternsLong(rules: seq<FragmentRule>)
    requires rules == FRAGMENT_RULES
    ensures WellFormedRules(rules)
    ensures forall r :: r in rules ==> |r.pattern.text| >= 2
  {
    DefaultPatternsHaveKeys(rules);
    forall r | r in rules
      ensures |r.pattern.text| >= 2
    {
      var i :| 0 <= i < |rules| && rules[i] == r;
      if i < 13 {
        DefaultPatternLongLow(i);
      } else {
        DefaultPatternLongHigh(i);
      }
    }
  }

  /** A pattern holding a key character has a character outside every key-free text. */
  lemma KeyOutside(t: string, v: string)
    requires HasFragmentKey(t)
    requires forall i :: 0 <= i < |v| ==> !IsFragmentKey(v[i])
    ensures HasCharOutside(t, v)
  {
    var c := if 'x' in t then 'x' else if 's' in t then 's' else if 'j' in t then 'j' else '\U{0008}';
    var j :| 0 <= j < |t| && t[j] == c;
    HasCharOutsideAt(t, v, j);
  }

  /** Rules whose patterns each hold a key character leave every key-free text alone. */
  lemma FragmentsKeepKeyFree(rules: seq<FragmentRule>, v: string)
    requires WellFormedRules(rules)
    requires forall r :: r in rules ==> HasFragmentKey(r.pattern.text)
    requires forall i :: 0 <= i < |v| ==> !IsFragmentKey(v[i])
    ensures ApplyFragments(rules, v) == v
  {
    forall r | r in rules
      ensures HasCharOutside(r.pattern.text, v)
    {
      KeyOutside(r.pattern.text, v);
    }
    FragmentsUntouched(rules, v);
  }

  /**
   * The default fragment stage leaves alone every text without 'x', 's',
   * 'j' or U+0008: each default pattern contains one of them.
   */
  lemma DefaultFragmentsKeep(rules: seq<FragmentRule>, v: string)
    requires rules == FRAGMENT_RULES
    requires forall i :: 0 <= i < |v| ==> !IsFragmentKey(v[i])
    ensures WellFormedRules(rules) && ApplyFragments(rules, v) == v
  {
    DefaultPatternsHaveKeys(rules);
    FragmentsKeepKeyFree(rules, v);
  }

  /** Text without digits or fragment keys, which the numeral and fragment stages leave alone. */
  predicate Untouched(v: string) {
    forall i :: 0 <= i < |v| ==> !IsAsciiDigit(v[i]) && !IsFragmentKey(v[i])
  }

  /**
   * A one-word text whose override result has no digit and none of the
   * fragment keys comes out of the default converter as the letter pass of
   * that result.
   */
  lemma ConvertPlainWord(cv: Converter, w: string, v: string)
    requires cv == DEFAULT
    requires IsWord(w) && v == OverrideWord(cv.overrides, w) && Untouched(v)
    ensures WellFormed(cv) && Convert(cv, w) == LetterStage(cv.letters, v)
  {
    DefaultWellFormed();
    OverrideStageOneWord(cv.overrides, w);
    DefaultNumeralsKeepDigitFree(cv, v);
    DefaultFragmentsKeep(cv.fragments, v);
  }

  /** "ok" is an override word: it becomes "ohk", which the later stages leave as it is. */
  lemma ConvertOk(cv: Converter)
    requires cv == DEFAULT
    ensures WellFormed(cv) && Convert(cv, "ok") == "ohk"
  {
    assert LetterStage(cv.letters, "ohk") == "ohk";
    OverrideSamples(cv.overrides);
    SampleWords();
    ConvertPlainWord(cv, "ok", "ohk");
  }

  lemma BonvoluLetters(letters: map<char, string>)
    requires letters == LETTERS
    ensures LetterStage(letters, "bonvolu") == "bonwolu"
  {
    LetterStageOne(letters, 'v');
    LetterStageBetween(letters, "bon", "v", "olu", "w", "bonvolu", "bonwolu");
  }

  /**
   * "bv" becomes "bonvolu" in the override stage and the letter pass then
   * turns its 'v' into 'w': the output of an override is not protected
   * from the later stages.
   */
  lemma ConvertBv(cv: Converter)
    requires cv == DEFAULT
    ensures WellFormed(cv) && Convert(cv, "bv") == "bonwolu"
  {
    BonvoluLetters(cv.letters);
    OverrideSamples(cv.overrides);
    SampleWords();
    ConvertPlainWord(cv, "bv", "bonvolu");
  }

  /** "ĉ" is only touched by the letter pass. */
  lemma ConvertCircumflexC(cv: Converter)
    requires cv == DEFAULT
    ensures WellFormed(cv) && Convert(cv, "ĉ") == "cz"
  {
    assert 'ĉ' in cv.letters && cv.letters['ĉ'] == "cz";
    ConvertSingleCharacter(cv, 'ĉ');
  }

  /**
   * "100" is spelled digit by digit: the table's "100" entry never fires,
   * because "1" and "0" have already been replaced when it is tried.
   */
  lemma HundredSpelledDigitByDigit(numbers: seq<Entry>)
    requires numbers == NUMBERS
    ensures ReplaceEach(numbers, "100") == "ununulonulo"
  {
    NumeralStageSpellsDigits("100");
    assert SpellDigits("100") == "ununulonulo";
  }

  /**
   * "radio" ends in "io" at the end of a word, yet the `io\\b` rule does
   * not fire: the fragment stage leaves it as it is.
   */
  lemma RadioKeepsFinalIo(rules: seq<FragmentRule>)
    requires rules == FRAGMENT_RULES
    ensures WellFormedRules(rules) && ApplyFragments(rules, "radio") == "radio"
  {
    DefaultFragmentsKeep(rules, "radio");
  }

  lemma RadioLetters(letters: map<char, string>)
    requires letters == LETTERS
    ensures LetterStage(letters, "radio") == "radijo"
  {
    LetterStageOne(letters, 'i');
    LetterStageBetween(letters, "rad", "i", "o", "ij", "radio", "radijo");
  }

  /** As written, "radio" keeps its ending through the fragments and the letter pass spells it "radijo". */
  lemma ConvertRadio(cv: Converter)
    requires cv == DEFAULT
    ensures WellFormed(cv) && Convert(cv, "radio") == "radijo"
  {
    RadioLetters(cv.letters);
    OverrideSamples(cv.overrides);
    SampleWords();
    ConvertPlainWord(cv, "radio", "radio");
  }

  lemma FiveSpelled(numbers: seq<Entry>)
    requires numbers == NUMBERS
    ensures ReplaceEach(numbers, "5") == "kvijn"
  {
    NumeralStageSpellsDigits("5");
    SpellFive();
  }

  lemma SpellFive()
    ensures SpellDigits("5") == "kvijn"
  {
  }

  lemma FragmentMissesKvijnLow(i: nat)
    requires i < 9
    ensures HasCharOutside(FRAGMENT_RULES[i].pattern.text, "kvijn")
  {
    HasCharOutsideAt(FRAGMENT_RULES[i].pattern.text, "kvijn", if i == 7 || i == 8 then 1 else 0);
  }

  lemma FragmentMissesKvijnMid(i: nat)
    requires 9 <= i < 17
    ensures HasCharOutside(FRAGMENT_RULES[i].pattern.text, "kvijn")
  {
    HasCharOutsideAt(FRAGMENT_RULES[i].pattern.text, "kvijn", if i < 11 then 1 else if i == 16 then 2 else 0);
  }

  lemma FragmentMissesKvijnHigh(i: nat)
    requires 17 <= i < |FRAGMENT_RULES|
    ensures HasCharOutside(FRAGMENT_RULES[i].pattern.text, "kvijn")
  {
    HasCharOutsideAt(FRAGMENT_RULES[i].pattern.text, "kvijn", if i == 17 then 2 else 0);
  }

  /** No default fragment occurs in "kvijn", though it holds the key character 'j'. */
  lemma FragmentsKeepKvijn(rules: seq<FragmentRule>)
    requires rules == FRAGMENT_RULES
    ensures WellFormedRules(rules) && ApplyFragments(rules, "kvijn") == "kvijn"
  {
    DefaultPatternsHaveKeys(rules);
    forall r | r in rules
      ensures HasCharOutside(r.pattern.text, "kvijn")
    {
      var k :| 0 <= k < |rules| && rules[k] == r;
      if k < 9 {
        FragmentMissesKvijnLow(k);
      } else if k < 17 {
        FragmentMissesKvijnMid(k);
      } else {
        FragmentMissesKvijnHigh(k);
      }
    }
    FragmentsUntouched(rules, "kvijn");
  }

  lemma KvijnLetters(letters: map<char, string>)
    requires letters == LETTERS
    ensures LetterStage(letters, "kvijn") == "kwijyn"
  {
    LetterStageImages(letters, "kvijn", ["k", "w", "ij", "y", "n"], "kwijyn");
  }

  lemma FiveNotOverridden(overrides: map<string, string>)
    requires overrides == OVERRIDES
    ensures IsWord("5") && OverrideWord(overrides, "5") == "5"
  {
    LowerOfLowercase("5");
  }

  /**
   * "5" is spelled "kvijn" by the numeral stage, and the letter pass then
   * rewrites that stage's output: 'v' to 'w', 'i' to "ij", 'j' to 'y'.
   */
  lemma ConvertFive(cv: Converter)
    requires cv == DEFAULT
    ensures WellFormed(cv) && Convert(cv, "5") == "kwijyn"
  {
    KvijnLetters(cv.letters);
    FiveNotOverridden(cv.overrides);
    OverrideStageOneWord(cv.overrides, "5");
    FiveSpelled(cv.numbers);
    FragmentsKeepKvijn(cv.fragments);
  }
}
