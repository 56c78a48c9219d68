/**
 * The converter as its rule document evidently means it. Two things differ
 * from `Vocx`, which models the code as written:
 *
 *  - the seven word-end rules reach `re` as patterns ending in the two
 *    characters backslash and 'b', so they compile to `AtWordEnd` rules and
 *    fire at the end of a word;
 *  - the numerals are tried longest key first, so "10", "100", "1000" and
 *    "1000000" are replaced before their digits are.
 *
 * Everything else (overrides, letters, the other fragments, the stage
 * order) is shared with `Vocx`.
 */
module VocxIntended {
  import opened Wrappers
  import opened Text
  import opened Vocx

  // ---------------------------------------------------------------------------
  // Word-end rules
  // ---------------------------------------------------------------------------

  /** The seven word-end entries, with `\b` spelled as backslash and 'b'. */
  const WORD_END_ENTRIES: seq<Entry> := [
    Entry("ide\\b", "ijde"), Entry("io\\b", "ijo"), Entry("ioy\\b", "ijoj"),
    Entry("ioyn\\b", "ijojn"), Entry("feyo\\b", "fejo"), Entry("feyoy\\b", "feyoj"),
    Entry("feyoyn\\b", "feyoj")]

  const WORD_END_RULES: seq<FragmentRule> := [
    FragmentRule(AtWordEnd("ide"), "ijde"), FragmentRule(AtWordEnd("io"), "ijo"),
    FragmentRule(AtWordEnd("ioy"), "ijoj"), FragmentRule(AtWordEnd("ioyn"), "ijojn"),
    FragmentRule(AtWordEnd("feyo"), "fejo"), FragmentRule(AtWordEnd("feyoy"), "feyoj"),
    FragmentRule(AtWordEnd("feyoyn"), "feyoj")]

  /** The fragment list with the word-end entries in place of the backspace ones. */
  const INTENDED_FRAGMENTS: seq<Entry> := RAW_FRAGMENTS[..7] + WORD_END_ENTRIES + RAW_FRAGMENTS[14..]

  const INTENDED_RULES: seq<FragmentRule> := FRAGMENT_RULES[..7] + WORD_END_RULES + FRAGMENT_RULES[14..]

  /** The intended document differs from the loaded one only where a backspace stood for `\b`. */
  lemma IntendedDiffersOnlyInBackspaces(raw: seq<Entry>)
    requires raw == INTENDED_FRAGMENTS
    ensures |raw| == |RAW_FRAGMENTS|
    ensures forall i :: 0 <= i < |raw| && !(7 <= i < 14) ==> raw[i] == RAW_FRAGMENTS[i]
    ensures forall i :: 7 <= i < 14 ==>
      raw[i].value == RAW_FRAGMENTS[i].value &&
      |RAW_FRAGMENTS[i].key| > 0 &&
      RAW_FRAGMENTS[i].key[|RAW_FRAGMENTS[i].key| - 1] == '\U{0008}' &&
      raw[i].key == RAW_FRAGMENTS[i].key[..|RAW_FRAGMENTS[i].key| - 1] + "\\b"
  {
    forall i | 7 <= i < 14
      ensures raw[i].value == RAW_FRAGMENTS[i].value
      ensures |RAW_FRAGMENTS[i].key| > 0 && RAW_FRAGMENTS[i].key[|RAW_FRAGMENTS[i].key| - 1] == '\U{0008}'
      ensures raw[i].key == RAW_FRAGMENTS[i].key[..|RAW_FRAGMENTS[i].key| - 1] + "\\b"
    {
      WordEndEntryMatchesBackspace(i);
    }
  }

  lemma WordEndEntryMatchesBackspace(i: nat)
    requires 7 <= i < 14
    ensures INTENDED_FRAGMENTS[i] == WORD_END_ENTRIES[i - 7]
    ensures WORD_END_ENTRIES[i - 7].value == RAW_FRAGMENTS[i].value
    ensures |RAW_FRAGMENTS[i].key| > 0 && RAW_FRAGMENTS[i].key[|RAW_FRAGMENTS[i].key| - 1] == '\U{0008}'
    ensures WORD_END_ENTRIES[i - 7].key == RAW_FRAGMENTS[i].key[..|RAW_FRAGMENTS[i].key| - 1] + "\\b"
  {
    if i < 10 {
      WordEndEntryMatchesLow(i);
    } else {
      WordEndEntryMatchesHigh(i);
    }
  }

  lemma WordEndEntryMatchesLow(i: nat)
    requires 7 <= i < 10
    ensures INTENDED_FRAGMENTS[i] == WORD_END_ENTRIES[i - 7]
    ensures WORD_END_ENTRIES[i - 7].value == RAW_FRAGMENTS[i].value
    ensures |RAW_FRAGMENTS[i].key| > 0 && RAW_FRAGMENTS[i].key[|RAW_FRAGMENTS[i].key| - 1] == '\U{0008}'
    ensures WORD_END_ENTRIES[i - 7].key == RAW_FRAGMENTS[i].key[..|RAW_FRAGMENTS[i].key| - 1] + "\\b"
  {
  }

  lemma WordEndEntryMatchesHigh(i: nat)
    requires 10 <= i < 14
    ensures INTENDED_FRAGMENTS[i] == WORD_END_ENTRIES[i - 7]
    ensures WORD_END_ENTRIES[i - 7].value == RAW_FRAGMENTS[i].value
    ensures |RAW_FRAGMENTS[i].key| > 0 && RAW_FRAGMENTS[i].key[|RAW_FRAGMENTS[i].key| - 1] == '\U{0008}'
    ensures WORD_END_ENTRIES[i - 7].key == RAW_FRAGMENTS[i].key[..|RAW_FRAGMENTS[i].key| - 1] + "\\b"
  {
  }

  /** A key `t\b` with plain `t`, not anchored at the start, compiles to a word-end rule on `t`. */
  lemma WordEndRuleCompiles(e: Entry, t: string)
    requires |t| > 0 && PlainText(t) && e.key == t + "\\b" && t[0] != '^' && '\\' !in e.value
    ensures CompileFragment(e) == Ok(FragmentRule(AtWordEnd(t), e.value))
  {
    assert e.key[..|e.key| - 2] == t;
    assert !StartsWith(e.key, "^") by {
      assert e.key[0] == t[0];
    }
  }

  lemma WordEndEntriesCompile(j: nat)
    requires j < |WORD_END_ENTRIES|
    ensures CompileFragment(WORD_END_ENTRIES[j]) == Ok(WORD_END_RULES[j])
  {
    var t := WORD_END_RULES[j].pattern.text;
    LowercaseIsPlain(t);
    WordEndRuleCompiles(WORD_END_ENTRIES[j], t);
  }

  /** Where each position of a sequence with a stretch replaced comes from. */
  lemma SplicedAt<T>(s: seq<T>, lo: nat, hi: nat, mid: seq<T>, i: nat)
    requires lo <= hi <= |s| && i < lo + |mid| + |s| - hi
    ensures (s[..lo] + mid + s[hi..])[i] ==
      if i < lo then s[i] else if i < lo + |mid| then mid[i - lo] else s[i - lo - |mid| + hi]
  {
  }

  /** Replacing a stretch of entries by ones that compile replaces the same stretch of rules. */
  lemma CompileSpliced(es: seq<Entry>, rules: seq<FragmentRule>, lo: nat, hi: nat,
                       mid: seq<Entry>, midRules: seq<FragmentRule>)
    requires lo <= hi <= |es| == |rules| && |mid| == |midRules|
    requires forall i :: 0 <= i < |es| ==> CompileFragment(es[i]) == Ok(rules[i])
    requires forall i :: 0 <= i < |mid| ==> CompileFragment(mid[i]) == Ok(midRules[i])
    ensures CompileFragments(es[..lo] + mid + es[hi..]) == Ok(rules[..lo] + midRules + rules[hi..])
  {
    var spliced, splicedRules := es[..lo] + mid + es[hi..], rules[..lo] + midRules + rules[hi..];
    forall i | 0 <= i < |spliced|
      ensures CompileFragment(spliced[i]) == Ok(splicedRules[i])
    {
      SplicedAt(es, lo, hi, mid, i);
      SplicedAt(rules, lo, hi, midRules, i);
    }
    CompileFragmentsPointwise(spliced, splicedRules);
  }

  lemma WordEndEntriesCompileAll(mid: seq<Entry>)
    requires mid == WORD_END_ENTRIES
    ensures |mid| == |WORD_END_RULES|
    ensures forall i :: 0 <= i < |mid| ==> CompileFragment(mid[i]) == Ok(WORD_END_RULES[i])
  {
    forall i | 0 <= i < |mid|
      ensures CompileFragment(mid[i]) == Ok(WORD_END_RULES[i])
    {
      WordEndEntriesCompile(i);
    }
  }

  /** With `\b` intact, every word-end entry compiles to an `AtWordEnd` rule and the others as before. */
  lemma IntendedFragmentsCompile(raw: seq<Entry>)
    requires raw == INTENDED_FRAGMENTS
    ensures CompileFragments(raw) == Ok(INTENDED_RULES)
  {
    DefaultFragmentsCompileEach(RAW_FRAGMENTS);
    WordEndEntriesCompileAll(WORD_END_ENTRIES);
    CompileSpliced(RAW_FRAGMENTS, FRAGMENT_RULES, 7, 14, WORD_END_ENTRIES, WORD_END_RULES);
  }

  // ---------------------------------------------------------------------------
  // Numerals, longest key first
  // ---------------------------------------------------------------------------

  /** No key is shorter than the key after it. */
  predicate LongestFirst(es: seq<Entry>) {
    |es| <= 1 || (|es[0].key| >= |es[1].key| && LongestFirst(es[1..]))
  }

  /** Puts `e` in front of the first entry whose key is no longer than its own. */
  function InsertByLength(e: Entry, es: seq<Entry>): (r: seq<Entry>)
    ensures LongestFirst(es) ==> LongestFirst(r)
    ensures |r| == |es| + 1 && (r[0] == e || (|es| > 0 && r[0] == es[0]))
  {
    if |es| == 0 || |es[0].key| <= |e.key| then
      [e] + es
    else
      assert es == [es[0]] + es[1..];
      [es[0]] + InsertByLength(e, es[1..])
  }

  /**
   * A stable sort by key length, longest first: Python's `sorted` with the
   * key length as key and `reverse=True` keeps entries of equal length in
   * their original order, and so does this.
   */
  function SortLongestFirst(es: seq<Entry>): (r: seq<Entry>)
    ensures LongestFirst(r)
    ensures multiset(r) == multiset(es)
    ensures |r| == |es|
  {
    if |es| == 0 then []
    else
      var sorted := SortLongestFirst(es[1..]);
      InsertRestoresEntries(es, sorted);
      InsertByLength(es[0], sorted)
  }

  /** Inserting the first entry into a permutation of the rest gives a permutation of the whole. */
  lemma InsertRestoresEntries(es: seq<Entry>, sorted: seq<Entry>)
    requires |es| > 0 && multiset(sorted) == multiset(es[1..])
    ensures multiset(InsertByLength(es[0], sorted)) == multiset(es)
  {
    InsertIsPermutation(es[0], sorted);
    assert es == [es[0]] + es[1..];
  }

  /** Inserting adds exactly the one entry. */
  lemma {:induction false} InsertIsPermutation(e: Entry, es: seq<Entry>)
    ensures multiset(InsertByLength(e, es)) == multiset(es) + multiset{e}
  {
    if |es| > 0 && |es[0].key| > |e.key| {
      InsertIsPermutation(e, es[1..]);
      assert es == [es[0]] + es[1..];
    }
  }

  /** Entries of equal key length keep their order: an entry goes in front of its equals. */
  lemma InsertBeforeEqual(e: Entry, es: seq<Entry>)
    requires |es| > 0 && |es[0].key| == |e.key|
    ensures InsertByLength(e, es) == [e] + es
  {
  }

  /** Behind keys that are all longer, an entry goes to the end. */
  lemma {:induction false} InsertBehindLonger(e: Entry, es: seq<Entry>)
    requires forall k :: 0 <= k < |es| ==> |es[k].key| > |e.key|
    ensures InsertByLength(e, es) == es + [e]
  {
    if |es| > 0 {
      InsertBehindLonger(e, es[1..]);
      assert es == [es[0]] + es[1..];
    }
  }

  function Reversed<T>(s: seq<T>): (r: seq<T>)
    ensures |r| == |s|
    ensures forall k :: 0 <= k < |s| ==> r[k] == s[|s| - 1 - k]
  {
    if |s| == 0 then [] else Reversed(s[1..]) + [s[0]]
  }

  lemma ReversedFour<T>(s: seq<T>)
    requires |s| == 4
    ensures Reversed(s) == [s[3], s[2], s[1], s[0]]
  {
  }

  /** Keys that grow strictly along the sequence sort into the reverse order. */
  lemma {:induction false} SortIncreasing(es: seq<Entry>)
    requires forall i, j :: 0 <= i < j < |es| ==> |es[i].key| < |es[j].key|
    ensures SortLongestFirst(es) == Reversed(es)
  {
    if |es| > 0 {
      SortIncreasing(es[1..]);
      ReversedTailLonger(es);
      InsertBehindLonger(es[0], Reversed(es[1..]));
    }
  }

  lemma ReversedTailLonger(es: seq<Entry>)
    requires |es| > 0
    requires forall i, j :: 0 <= i < j < |es| ==> |es[i].key| < |es[j].key|
    ensures forall k :: 0 <= k < |es| - 1 ==> |Reversed(es[1..])[k].key| > |es[0].key|
  {
    var rest := Reversed(es[1..]);
    forall k | 0 <= k < |rest|
      ensures |rest[k].key| > |es[0].key|
    {
      assert rest[k] == es[|es| - 1 - k];
    }
  }

  /** Every key is one character long. */
  predicate ShortKeys(es: seq<Entry>) {
    forall k :: 0 <= k < |es| ==> |es[k].key| == 1
  }

  /** Every key is longer than one character. */
  predicate LongKeys(es: seq<Entry>) {
    forall k :: 0 <= k < |es| ==> |es[k].key| > 1
  }

  lemma ShortKeysTail(short: seq<Entry>)
    requires |short| > 0 && ShortKeys(short)
    ensures ShortKeys(short[1..])
  {
    forall k | 0 <= k < |short[1..]|
      ensures |short[1..][k].key| == 1
    {
      assert short[1..][k] == short[k + 1];
    }
  }

  lemma LongKeysTail(long: seq<Entry>)
    requires |long| > 0 && LongKeys(long)
    ensures LongKeys(long[1..])
  {
    forall k | 0 <= k < |long[1..]|
      ensures |long[1..][k].key| > 1
    {
      assert long[1..][k] == long[k + 1];
    }
  }

  lemma HeadTail<T>(s: seq<T>)
    requires |s| > 0
    ensures s == [s[0]] + s[1..]
  {
  }

  /** Behind longer keys, one-character keys keep their order and follow them. */
  lemma {:induction false} InsertShortBehindLong(e: Entry, long: seq<Entry>, short: seq<Entry>)
    requires |e.key| == 1 && LongKeys(long) && ShortKeys(short)
    ensures InsertByLength(e, long + short) == long + [e] + short
  {
    if |long| > 0 {
      assert (long + short)[1..] == long[1..] + short;
      LongKeysTail(long);
      InsertShortBehindLong(e, long[1..], short);
      HeadTail(long);
    } else {
      assert long + short == short;
    }
  }

  /** Sorting a sequence with a first entry inserts that entry into the sorted rest. */
  lemma SortCons(e: Entry, es: seq<Entry>)
    ensures SortLongestFirst([e] + es) == InsertByLength(e, SortLongestFirst(es))
  {
    assert ([e] + es)[0] == e && ([e] + es)[1..] == es;
  }

  /** One-character keys in front of longer ones sort, in their order, behind them. */
  lemma {:induction false} SortShortFirst(short: seq<Entry>, rest: seq<Entry>)
    requires ShortKeys(short) && LongKeys(SortLongestFirst(rest))
    ensures SortLongestFirst(short + rest) == SortLongestFirst(rest) + short
  {
    if |short| > 0 {
      ShortKeysTail(short);
      SortShortFirst(short[1..], rest);
      SortShortStep(short[0], short[1..], rest, SortLongestFirst(rest));
      HeadTail(short);
    } else {
      assert short + rest == rest;
    }
  }

  lemma SortShortStep(e: Entry, tail: seq<Entry>, rest: seq<Entry>, sorted: seq<Entry>)
    requires |e.key| == 1 && ShortKeys(tail) && LongKeys(sorted)
    requires SortLongestFirst(tail + rest) == sorted + tail
    ensures SortLongestFirst([e] + tail + rest) == sorted + [e] + tail
  {
    var both := tail + rest;
    calc {
      SortLongestFirst([e] + tail + rest);
    == { assert [e] + tail + rest == [e] + both; }
      SortLongestFirst([e] + both);
    == { SortCons(e, both); }
      InsertByLength(e, sorted + tail);
    == { InsertShortBehindLong(e, sorted, tail); }
      sorted + [e] + tail;
    }
  }

  /** The numeral table in the order the intended converter tries it. */
  const INTENDED_NUMBERS: seq<Entry> := [
    Entry("1000000", "mijlijono"), Entry("1000", "mijl"), Entry("100", "tsent"), Entry("10", "dek"),
    Entry("0", "nulo"), Entry("1", "unu"), Entry("2", "du"), Entry("3", "trij"), Entry("4", "kvar"),
    Entry("5", "kvijn"), Entry("6", "ses"), Entry("7", "sep"), Entry("8", "ohk"), Entry("9", "nał")]

  /**
   * One-character keys followed by keys that grow strictly in length sort
   * into the long keys reversed, then the one-character keys in order.
   */
  lemma SortShortThenIncreasing(short: seq<Entry>, long: seq<Entry>)
    requires forall k :: 0 <= k < |short| ==> |short[k].key| == 1
    requires forall k :: 0 <= k < |long| ==> |long[k].key| > 1
    requires forall i, j :: 0 <= i < j < |long| ==> |long[i].key| < |long[j].key|
    ensures SortLongestFirst(short + long) == Reversed(long) + short
    ensures LongestFirst(Reversed(long) + short)
    ensures multiset(Reversed(long) + short) == multiset(short + long)
  {
    SortIncreasing(long);
    SortShortFirst(short, long);
  }

  /**
   * A table of one-character keys followed by four keys that grow strictly
   * sorts into those four reversed, then the one-character entries in order.
   */
  lemma SortDigitsThenFour(numbers: seq<Entry>, d: nat)
    requires |numbers| == d + 4
    requires forall k :: 0 <= k < d ==> |numbers[k].key| == 1
    requires forall k :: d <= k < d + 4 ==> |numbers[k].key| > 1
    requires forall i, j :: d <= i < j < d + 4 ==> |numbers[i].key| < |numbers[j].key|
    ensures SortLongestFirst(numbers) == [numbers[d + 3], numbers[d + 2], numbers[d + 1], numbers[d]] + numbers[..d]
    ensures multiset(SortLongestFirst(numbers)) == multiset(numbers)
  {
    var digits, long := numbers[..d], numbers[d..];
    assert numbers == digits + long;
    SortShortThenIncreasing(digits, long);
    ReversedFour(long);
  }

  lemma NumbersShape(numbers: seq<Entry>)
    requires numbers == NUMBERS
    ensures |numbers| == 14
    ensures forall k :: 0 <= k < 10 ==> |numbers[k].key| == 1
    ensures forall k :: 10 <= k < 14 ==> |numbers[k].key| > 1
    ensures forall i, j :: 10 <= i < j < 14 ==> |numbers[i].key| < |numbers[j].key|
  {
  }

  /** Sorting the document's numerals longest first gives `INTENDED_NUMBERS`. */
  lemma IntendedNumbersSorted(numbers: seq<Entry>)
    requires numbers == NUMBERS
    ensures SortLongestFirst(numbers) == INTENDED_NUMBERS
    ensures multiset(INTENDED_NUMBERS) == multiset(numbers)
    ensures LongestFirst(INTENDED_NUMBERS)
  {
    NumbersShape(numbers);
    SortDigitsThenFour(numbers, 10);
    IntendedNumbersLayout(numbers);
  }

  lemma IntendedNumbersLayout(numbers: seq<Entry>)
    requires numbers == NUMBERS
    ensures INTENDED_NUMBERS == [numbers[13], numbers[12], numbers[11], numbers[10]] + numbers[..10]
  {
  }

  // ---------------------------------------------------------------------------
  // The intended converter
  // ---------------------------------------------------------------------------

  const INTENDED: Converter := Converter(LETTERS, INTENDED_RULES, OVERRIDES, INTENDED_NUMBERS)

  /** The rule document with `\b` reaching the rule compiler intact. */
  const INTENDED_DOCUMENT: RuleSet := RuleSet(LETTERS, INTENDED_FRAGMENTS, RAW_OVERRIDES, NUMBERS)

  /** `_prepare_rules` as intended: as written, except that the numerals are tried longest key first. */
  function LoadIntended(rules: RuleSet): (r: Result<Converter, LoadError>)
    ensures r.Ok? <==> Load(rules).Ok?
    ensures r.Ok? ==> LongestFirst(r.value.numbers) && multiset(r.value.numbers) == multiset(rules.numbers)
    ensures r.Ok? ==> r.value.letters == rules.letters && r.value.fragments == Load(rules).value.fragments
    ensures r.Ok? ==> r.value.overrides == OverrideMap(rules.overrides) && WellFormed(r.value)
  {
    match Load(rules)
    case Err(e) => Err(e)
    case Ok(c) =>
      Ok(c.(numbers := SortLongestFirst(rules.numbers)))
  }

  /** Loading the intended document the intended way gives the intended converter. */
  lemma IntendedDocumentLoads(rules: RuleSet)
    requires rules == INTENDED_DOCUMENT
    ensures LoadIntended(rules) == Ok(INTENDED)
  {
    IntendedFragmentsCompile(rules.fragments);
    RawOverridesMap(rules.overrides, OverrideMap(rules.overrides));
    IntendedNumbersSorted(rules.numbers);
  }

  /** Keys longer than the text cannot occur in it. */
  lemma {:induction false} ReplaceEachLongerKeys(es: seq<Entry>, s: string)
    requires forall j :: 0 <= j < |es| ==> |es[j].key| > |s|
    ensures ReplaceEach(es, s) == s
  {
    if |es| > 0 {
      ReplaceEachLongerKeys(es[1..], s);
    }
  }

  /** Keys that start with a digit leave a text without digits unchanged. */
  lemma ReplaceEachDigitKeys(es: seq<Entry>, s: string)
    requires forall j :: 0 <= j < |es| ==> |es[j].key| > 0 && IsAsciiDigit(es[j].key[0])
    requires forall i :: 0 <= i < |s| ==> !IsAsciiDigit(s[i])
    ensures ReplaceEach(es, s) == s
  {
    forall j | 0 <= j < |es|
      ensures HasCharOutside(es[j].key, s)
    {
      HasCharOutsideAt(es[j].key, s, 0);
    }
    ReplaceEachUntouched(es, s);
  }

  /**
   * A text that is exactly one key, behind only longer keys and followed
   * only by numerals, becomes that key's word when the word has no digit.
   */
  lemma ReplaceEachWholeKey(es: seq<Entry>, k: nat, s: string)
    requires k < |es| && |s| > 0 && es[k].key == s
    requires forall j :: 0 <= j < k ==> |es[j].key| > |s|
    requires forall j :: k < j < |es| ==> |es[j].key| > 0 && IsAsciiDigit(es[j].key[0])
    requires forall i :: 0 <= i < |es[k].value| ==> !IsAsciiDigit(es[k].value[i])
    ensures ReplaceEach(es, s) == es[k].value
  {
    var before, after := es[..k], es[k + 1..];
    assert es == before + ([es[k]] + after);
    ReplaceEachAppend(before, [es[k]] + after, s);
    ReplaceEachLongerKeys(before, s);
    assert ReplaceAll(s, s, es[k].value) == es[k].value by {
      assert s[..|s|] == s && s[|s|..] == [];
    }
    assert ([es[k]] + after)[1..] == after;
    ReplaceEachDigitKeys(after, es[k].value);
  }

  /** The shape of the intended numeral order that the "100" example needs. */
  lemma IntendedNumbersShape(numbers: seq<Entry>)
    requires numbers == INTENDED_NUMBERS
    ensures |numbers| == 14 && numbers[2] == Entry("100", "tsent")
    ensures forall j :: 0 <= j < 2 ==> |numbers[j].key| > 3
    ensures forall j :: 2 < j < 14 ==> |numbers[j].key| > 0 && IsAsciiDigit(numbers[j].key[0])
  {
  }

  /**
   * "100" is replaced as a whole before its digits are tried, so it is
   * spelled "tsent".
   */
  lemma HundredSpelledWhole(numbers: seq<Entry>)
    requires numbers == INTENDED_NUMBERS
    ensures ReplaceEach(numbers, "100") == "tsent"
  {
    IntendedNumbersShape(numbers);
    ReplaceEachWholeKey(numbers, 2, "100");
  }

  // ---------------------------------------------------------------------------
  // Word-end rules at work
  // ---------------------------------------------------------------------------

  /** "radio" ends a word, so the `io` rule fires on its last two letters. */
  lemma RadioFinalIo()
    ensures SubAtWordEnd("radio", "io", "ijo") == "radijo"
  {
    assert BoundaryAfter("io", 2);
    assert SubAtWordEnd("io", "io", "ijo") == "ijo";
    assert SubAtWordEnd("dio", "io", "ijo") == "dijo";
    assert SubAtWordEnd("adio", "io", "ijo") == "adijo";
  }

  /** A character of each word-end rule after `io` that "radijo" lacks. */
  lemma LateWordEndMissesRadijo(k: nat)
    requires 2 <= k < |WORD_END_RULES|
    ensures HasCharOutside(WORD_END_RULES[k].pattern.text, "radijo")
  {
    HasCharOutsideAt(WORD_END_RULES[k].pattern.text, "radijo", if k < 4 then 2 else 0);
  }

  lemma WordEndTailKeepsRadijo(we: seq<FragmentRule>)
    requires we == WORD_END_RULES
    ensures WellFormedRules(we[2..]) && ApplyFragments(we[2..], "radijo") == "radijo"
  {
    var rest := we[2..];
    forall r | r in rest
      ensures WellFormedRule(r) && HasCharOutside(r.pattern.text, "radijo")
    {
      var k :| 0 <= k < |rest| && rest[k] == r;
      LateWordEndMissesRadijo(k + 2);
    }
    FragmentsUntouched(rest, "radijo");
  }

  /** The word-end block turns the final "io" of "radio" into "ijo" and nothing else fires. */
  lemma WordEndBlockRadio(we: seq<FragmentRule>)
    requires we == WORD_END_RULES
    ensures WellFormedRules(we) && ApplyFragments(we, "radio") == "radijo"
  {
    var ide, io := we[0], we[1];
    assert ide == FragmentRule(AtWordEnd("ide"), "ijde") && io == FragmentRule(AtWordEnd("io"), "ijo");
    SubAtWordEndMissingChar("radio", "ide", "ijde", 2);
    RadioFinalIo();
    WordEndTailKeepsRadijo(we);
    RunTwoThenRest(we, "radio", "radijo");
  }

  /** Running a list is running its first two rules, then the rest. */
  lemma RunTwoThenRest(rules: seq<FragmentRule>, s: string, t: string)
    requires |rules| >= 2 && WellFormedRule(rules[0]) && WellFormedRule(rules[1]) && WellFormedRules(rules[2..])
    requires ApplyFragments(rules[2..], ApplyFragment(ApplyFragment(s, rules[0]), rules[1])) == t
    ensures WellFormedRules(rules) && ApplyFragments(rules, s) == t
  {
    assert rules[1..][1..] == rules[2..];
    assert forall r :: r in rules ==> r == rules[0] || r == rules[1] || r in rules[2..];
  }

  /** A character of each default rule after the word-end block that "radijo" lacks. */
  lemma LateRuleMissesRadijo(i: nat)
    requires 14 <= i < |FRAGMENT_RULES|
    ensures HasCharOutside(FRAGMENT_RULES[i].pattern.text, "radijo")
  {
    if i < 19 {
      LateRuleMissesRadijoLow(i);
    } else {
      LateRuleMissesRadijoHigh(i);
    }
  }

  lemma LateRuleMissesRadijoLow(i: nat)
    requires 14 <= i < 19
    ensures HasCharOutside(FRAGMENT_RULES[i].pattern.text, "radijo")
  {
    HasCharOutsideAt(FRAGMENT_RULES[i].pattern.text, "radijo", if i == 16 || i == 17 then 2 else 0);
  }

  lemma LateRuleMissesRadijoHigh(i: nat)
    requires 19 <= i < |FRAGMENT_RULES|
    ensures HasCharOutside(FRAGMENT_RULES[i].pattern.text, "radijo")
  {
    HasCharOutsideAt(FRAGMENT_RULES[i].pattern.text, "radijo", if i == 23 then 3 else 0);
  }

  lemma LateRulesKeepRadijo(rules: seq<FragmentRule>)
    requires rules == FRAGMENT_RULES
    ensures WellFormedRules(rules[14..]) && ApplyFragments(rules[14..], "radijo") == "radijo"
  {
    DefaultPatternsHaveKeys(rules);
    var post := rules[14..];
    forall r | r in post
      ensures HasCharOutside(r.pattern.text, "radijo")
    {
      var k :| 0 <= k < |post| && post[k] == r;
      LateRuleMissesRadijo(k + 14);
    }
    FragmentsUntouched(post, "radijo");
  }

  /** A prefix of key-bearing rules leaves a key-free text alone, as the whole list does. */
  lemma PrefixKeepsKeyFree(rules: seq<FragmentRule>, n: nat, v: string)
    requires n <= |rules| && WellFormedRules(rules)
    requires forall r :: r in rules ==> HasFragmentKey(r.pattern.text)
    requires forall i :: 0 <= i < |v| ==> !IsFragmentKey(v[i])
    ensures WellFormedRules(rules[..n]) && ApplyFragments(rules[..n], v) == v
  {
    assert forall r :: r in rules[..n] ==> r in rules;
    FragmentsKeepKeyFree(rules[..n], v);
  }

  lemma EarlyRulesKeepRadio(rules: seq<FragmentRule>)
    requires rules == FRAGMENT_RULES
    ensures WellFormedRules(rules[..7]) && ApplyFragments(rules[..7], "radio") == "radio"
  {
    var v := "radio";
    assert forall i :: 0 <= i < |v| ==> !IsFragmentKey(v[i]);
    DefaultPatternsHaveKeys(rules);
    PrefixKeepsKeyFree(rules, 7, v);
  }

  /** Three blocks of rules run one after the other. */
  lemma RunThreeBlocks(pre: seq<FragmentRule>, mid: seq<FragmentRule>, post: seq<FragmentRule>,
                       s: string, t: string, u: string, v: string)
    requires WellFormedRules(pre) && WellFormedRules(mid) && WellFormedRules(post)
    requires ApplyFragments(pre, s) == t && ApplyFragments(mid, t) == u && ApplyFragments(post, u) == v
    ensures WellFormedRules(pre + mid + post) && ApplyFragments(pre + mid + post, s) == v
  {
    ApplyFragmentsAppend(pre, mid, s);
    ApplyFragmentsAppend(pre + mid, post, s);
  }

  /**
   * With `\b` intact the fragment stage rewrites the word-final "io" of
   * "radio" to "ijo", as the rule document intends.
   */
  lemma RadioEndsWithIjo(rules: seq<FragmentRule>)
    requires rules == INTENDED_RULES
    ensures WellFormedRules(rules) && ApplyFragments(rules, "radio") == "radijo"
  {
    EarlyRulesKeepRadio(FRAGMENT_RULES);
    WordEndBlockRadio(WORD_END_RULES);
    LateRulesKeepRadijo(FRAGMENT_RULES);
    RunThreeBlocks(FRAGMENT_RULES[..7], WORD_END_RULES, FRAGMENT_RULES[14..], "radio", "radio", "radijo", "radijo");
  }

  /**
   * A word-end rule fires only at a word boundary: where every occurrence
   * of its pattern runs on into more of the same word (or out of a non-word
   * character into another), the text is left as it is.
   */
  lemma SubAtWordEndNeedsBoundary(s: string, t: string, rep: string)
    requires |t| > 0
    requires forall p :: OccursAt(s, t, p) ==> !BoundaryAfter(s, p + |t|)
    ensures SubAtWordEnd(s, t, rep) == s
  {
    SubAtWordEndKeepsFrom(s, t, rep, 0);
    assert s[0..] == s;
  }

  /** The same on the suffix from `p`. */
  lemma {:induction false} SubAtWordEndKeepsFrom(s: string, t: string, rep: string, p: nat)
    requires |t| > 0 && p <= |s|
    requires forall i :: OccursAt(s, t, i) ==> !BoundaryAfter(s, i + |t|)
    ensures SubAtWordEnd(s[p..], t, rep) == s[p..]
    decreases |s| - p
  {
    if p == |s| {
      SubAtWordEndShort(s[p..], t, rep);
    } else {
      calc {
        SubAtWordEnd(s[p..], t, rep);
        { SubAtWordEndCopiesChar(s, t, rep, p); }
        [s[p]] + SubAtWordEnd(s[p + 1..], t, rep);
        { SubAtWordEndKeepsFrom(s, t, rep, p + 1); }
        [s[p]] + s[p + 1..];
        s[p..];
      }
    }
  }

  /**
   * A word-end rule fires at the first occurrence of its pattern that ends
   * at a word boundary: the text before it is kept, the occurrence becomes
   * the replacement, and the scan resumes after it.
   */
  lemma SubAtWordEndFirstMatch(a: string, t: string, b: string, rep: string)
    requires |t| > 0
    requires forall i :: 0 <= i < |a| && OccursAt(a + t + b, t, i) ==> !BoundaryAfter(a + t + b, i + |t|)
    requires BoundaryAfter(a + t + b, |a| + |t|)
    ensures SubAtWordEnd(a + t + b, t, rep) == a + rep + SubAtWordEnd(b, t, rep)
  {
    var s := a + t + b;
    assert s[..|a|] == a && s[|a| + |t|..] == b && s[|a|..|a| + |t|] == t;
    SubAtWordEndFiresAt(s, t, rep, 0, |a|);
    assert s[0..] == s;
  }

  /** The same on the suffix from `p`, with the first boundary-ended occurrence from there at index `k`. */
  lemma {:induction false} SubAtWordEndFiresAt(s: string, t: string, rep: string, p: nat, k: nat)
    requires |t| > 0 && p <= k && OccursAt(s, t, k) && BoundaryAfter(s, k + |t|)
    requires forall i :: p <= i < k && OccursAt(s, t, i) ==> !BoundaryAfter(s, i + |t|)
    ensures SubAtWordEnd(s[p..], t, rep) == s[p..k] + rep + SubAtWordEnd(s[k + |t|..], t, rep)
    decreases k - p
  {
    if p == k {
      SubAtWordEndAtOccurrence(s, t, rep, k);
    } else {
      var tail := SubAtWordEnd(s[k + |t|..], t, rep);
      calc {
        SubAtWordEnd(s[p..], t, rep);
        { SubAtWordEndCopiesChar(s, t, rep, p); }
        [s[p]] + SubAtWordEnd(s[p + 1..], t, rep);
        { SubAtWordEndFiresAt(s, t, rep, p + 1, k); }
        [s[p]] + (s[p + 1..k] + rep + tail);
        { assert s[p..k] == [s[p]] + s[p + 1..k]; }
        s[p..k] + rep + tail;
      }
    }
  }

  /** An occurrence at the start of the suffix from `k` that ends at a boundary is replaced, and the scan resumes after it. */
  lemma SubAtWordEndAtOccurrence(s: string, t: string, rep: string, k: nat)
    requires |t| > 0 && OccursAt(s, t, k) && BoundaryAfter(s, k + |t|)
    ensures SubAtWordEnd(s[k..], t, rep) == rep + SubAtWordEnd(s[k + |t|..], t, rep)
  {
    var u := s[k..];
    assert u[..|t|] == s[k..k + |t|];
    assert u[|t|..] == s[k + |t|..];
    assert u[|t| - 1] == s[k + |t| - 1];
    assert |t| < |u| ==> u[|t|] == s[k + |t|];
  }

  /** Where no boundary-ended occurrence starts at `p`, the scan copies `s[p]` and moves on. */
  lemma SubAtWordEndCopiesChar(s: string, t: string, rep: string, p: nat)
    requires |t| > 0 && p < |s| && !(OccursAt(s, t, p) && BoundaryAfter(s, p + |t|))
    ensures SubAtWordEnd(s[p..], t, rep) == [s[p]] + SubAtWordEnd(s[p + 1..], t, rep)
  {
    var u := s[p..];
    assert u[1..] == s[p + 1..];
    if |u| >= |t| {
      assert u[..|t|] == s[p..p + |t|];
      assert u[|t| - 1] == s[p + |t| - 1];
      assert |t| < |u| ==> u[|t|] == s[p + |t|];
    } else {
      SubAtWordEndShort(u[1..], t, rep);
    }
  }

  /** Text shorter than the pattern is left as it is. */
  lemma SubAtWordEndShort(s: string, t: string, rep: string)
    requires |s| < |t|
    ensures SubAtWordEnd(s, t, rep) == s
  {
  }

  /** Inside a word the `io` rule does not fire: "iom" keeps its "io". */
  lemma IoInsideWordKept()
    ensures SubAtWordEnd("iom", "io", "ijo") == "iom"
  {
    var s := "iom";
    forall p | OccursAt(s, "io", p)
      ensures !BoundaryAfter(s, p + 2)
    {
      assert s[p..p + 2][0] == s[p] == 'i';
    }
    SubAtWordEndNeedsBoundary(s, "io", "ijo");
  }

  // ---------------------------------------------------------------------------
  // The intended converter end to end
  // ---------------------------------------------------------------------------

  lemma IntendedNumbersDigitKeys(numbers: seq<Entry>)
    requires numbers == INTENDED_NUMBERS
    ensures forall j :: 0 <= j < |numbers| ==> |numbers[j].key| > 0 && IsAsciiDigit(numbers[j].key[0])
  {
  }

  lemma RadijoLetters(letters: map<char, string>)
    requires letters == LETTERS
    ensures LetterStage(letters, "radijo") == "radijyo"
  {
    LetterPassDoesNotRescan();
    LetterStageBetween(letters, "rad", "ij", "o", "ijy", "radijo", "radijyo");
  }

  /**
   * End to end, the intended converter turns "radio" into "radijyo": the
   * word-end rule gives "radijo" and the letter pass then spells its 'i'
   * and 'j'. As written, the same word comes out as "radijo" (see
   * `Vocx.ConvertRadio`).
   */
  lemma IntendedConvertRadio(cv: Converter)
    requires cv == INTENDED
    ensures WellFormed(cv) && Convert(cv, "radio") == "radijyo"
  {
    var w := "radio";
    assert forall i :: 0 <= i < |w| ==> !IsAsciiDigit(w[i]);
    RadijoLetters(cv.letters);
    OverrideSamples(cv.overrides);
    SampleWords();
    OverrideStageOneWord(cv.overrides, w);
    IntendedNumbersDigitKeys(cv.numbers);
    ReplaceEachDigitKeys(cv.numbers, w);
    RadioEndsWithIjo(cv.fragments);
  }
}
