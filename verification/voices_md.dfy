/**
 * The reader of Piper's `VOICES.md` voice list (`_parse_voices_md`): a
 * line-driven state machine over the markdown. The state is the language
 * of the last header line, the name of the last voice line and the records
 * found so far. A header names a language between backticks, a voice line
 * names a voice, and a quality line under a voice of the wanted language
 * yields one record with a model URL and a config URL.
 *
 * `corrected` selects between the code as written, where a quality line
 * with fewer than two URLs fails on the second URL before the length check
 * is reached, and the evidently intended order, where such a line is
 * skipped.
 */
module VoicesMd {
  import opened Wrappers
  import opened Text

  /** A voice record: a downloadable voice, or the placeholder returned when none is found. */
  datatype Voice =
    | Downloadable(id: string, name: string, modelUrl: string, configUrl: string, quality: string)
    | Fallback(id: string, name: string)

  /** `urls[1]` on a list with fewer than two URLs raises `IndexError`; the line is kept for reference. */
  datatype ParseError = MissingConfigUrl(line: string)

  /** `current_lang`, `current_voice` and `voices`. */
  datatype State = State(lang: Option<string>, voice: Option<string>, voices: seq<Voice>)

  const START: State := State(None, None, [])

  /** Python truthiness of `current_voice`: present and non-empty. */
  predicate Truthy(v: Option<string>) {
    v.Some? && |v.value| > 0
  }

  predicate IsListItem(line: string) {
    StartsWith(line, "* ")
  }

  /** A language header such as "* Italian (`it_IT`, Italiano)". */
  predicate IsHeader(line: string) {
    IsListItem(line) && Contains(line, "(`")
  }

  predicate IsVoiceLine(line: string) {
    IsListItem(line) && !Contains(line, "(`") && !Contains(line, "http")
  }

  predicate IsQualityLine(line: string) {
    IsListItem(line) && Contains(line, "http")
  }

  /** A list item starts with '*', so splitting it at '*' gives at least two parts. */
  lemma ListItemHasStar(line: string)
    requires IsListItem(line)
    ensures |SplitOn(line, '*')| >= 2
  {
    assert line[0] == '*';
  }

  /** A header contains a backtick, so splitting it at '`' gives at least two parts. */
  lemma HeaderHasBacktick(line: string)
    requires IsHeader(line)
    ensures |SplitOn(line, '`')| >= 2
  {
    var i := ContainsWitness(line, "(`");
    assert line[i..i + 2][1] == '`';
    CountZero(line, '`');
  }

  /**
   * The language a header line names: the text between its first two
   * backticks, cut at the first '_'; `None` for any other line.
   */
  function HeaderLang(line: string): (r: Option<string>)
    ensures r.Some? <==> IsHeader(line)
    ensures r.Some? ==> '_' !in r.value
  {
    if IsHeader(line) then
      var parts := SplitOn(line, '`');
      HeaderHasBacktick(line);
      Some(SplitOn(parts[1], '_')[0])
    else None
  }

  /** The text between the first and the second '*', stripped. */
  function VoiceName(line: string): (r: string)
    requires IsListItem(line)
    ensures |r| == 0 || Trimmed(r)
    ensures '*' !in r
  {
    ListItemHasStar(line);
    StripAvoids(SplitOn(line, '*')[1], '*');
    Strip(SplitOn(line, '*')[1])
  }

  /** The text after the first '*', cut at the first '-', stripped. */
  function Quality(line: string): (r: string)
    requires IsListItem(line)
    ensures |r| == 0 || Trimmed(r)
    ensures '-' !in r
  {
    ListItemHasStar(line);
    StripAvoids(SplitOn(SplitOn(line, '*')[1], '-')[0], '-');
    Strip(SplitOn(SplitOn(line, '*')[1], '-')[0])
  }

  /** A header sets the language and forgets the voice; any other line leaves the state alone. */
  function ApplyHeader(st: State, line: string): (r: State)
    ensures r.voices == st.voices
    ensures r.lang == if IsHeader(line) then HeaderLang(line) else st.lang
    ensures IsHeader(line) ==> r.voice == None
    ensures !IsHeader(line) ==> r == st
  {
    match HeaderLang(line)
    case Some(l) => st.(lang := Some(l), voice := None)
    case None => st
  }

  /** The text strictly between the first '(' and the first ')' of a part that mentions "http", if '(' comes first. */
  function PartUrl(part: string): (r: seq<string>)
    ensures |r| <= 1
    ensures |r| == 1 ==> Contains(part, "http") && ')' !in r[0]
  {
    if Contains(part, "http") then
      var start, end := Find(part, '('), Find(part, ')');
      if start != -1 && end != -1 && start < end then
        var u := part[start + 1..end];
        assert ')' !in u by {
          assert u == part[..end][start + 1..];
        }
        [u]
      else []
    else []
  }

  function PartsUrls(parts: seq<string>): (r: seq<string>)
    ensures |r| <= |parts|
    ensures forall i :: 0 <= i < |r| ==> ')' !in r[i]
  {
    if |parts| == 0 then [] else PartUrl(parts[0]) + PartsUrls(parts[1..])
  }

  /** The URLs of a quality line, in order: at most one per '['-separated part, none holding '[' or ')'. */
  function ExtractUrls(line: string): (r: seq<string>)
    ensures forall i :: 0 <= i < |r| ==> '[' !in r[i] && ')' !in r[i]
  {
    var parts := SplitOn(line, '[');
    PartsUrlsWithin(parts, '[');
    PartsUrls(parts)
  }

  /** A line without '[' is a single part. */
  lemma ExtractUrlsOnePart(a: string)
    requires '[' !in a
    ensures ExtractUrls(a) == PartUrl(a)
  {
    SplitOnNoSeparator(a, '[');
    assert [a][1..] == [];
  }

  /** The URLs of "a[b" are those of the part `a` followed by those of `b`: one link per part, in order. */
  lemma ExtractUrlsCons(a: string, b: string)
    requires '[' !in a
    ensures ExtractUrls(a + "[" + b) == PartUrl(a) + ExtractUrls(b)
  {
    assert a + "[" + b == a + ['['] + b;
    SplitOnConcat(a, '[', b);
    SplitOnNoSeparator(a, '[');
    assert ([a] + SplitOn(b, '['))[1..] == SplitOn(b, '[');
  }

  /** A URL cut out of a part has no character the part lacks. */
  lemma {:induction false} PartsUrlsWithin(parts: seq<string>, c: char)
    requires forall i :: 0 <= i < |parts| ==> c !in parts[i]
    ensures forall i :: 0 <= i < |PartsUrls(parts)| ==> c !in PartsUrls(parts)[i]
  {
    if |parts| > 0 {
      PartsUrlsWithin(parts[1..], c);
      var p := parts[0];
      var r := PartUrl(p);
      if |r| == 1 {
        var start, end := Find(p, '('), Find(p, ')');
        assert r[0] == p[start + 1..end];
        assert c !in r[0] by {
          assert forall k :: 0 <= k < |r[0]| ==> r[0][k] == p[start + 1 + k];
        }
      }
      assert PartsUrls(parts) == r + PartsUrls(parts[1..]);
    }
  }

  /** `url[:-5]` when the URL ends in ".json". */
  function DropJsonSuffix(u: string): (r: string)
    ensures StartsWith(u, r)
    ensures r == u || u == r + ".json"
  {
    if EndsWith(u, ".json") then u[..|u| - 5] else u
  }

  /** The record a quality line yields for voice `v` of language `code`; its id starts with the code and a '-'. */
  function Record(code: string, v: string, line: string, urls: seq<string>): (r: Voice)
    requires IsListItem(line) && |urls| >= 2
    ensures r.Downloadable? && StartsWith(r.id, code + "-")
  {
    var q := Quality(line);
    var id := code + "-" + v + "-" + q;
    assert id == (code + "-") + (v + "-" + q);
    StartsWithPrefix(code + "-", v + "-" + q);
    Downloadable(id, v + " (" + q + ")", urls[0], DropJsonSuffix(urls[1]), q)
  }

  /** `after` keeps every record of `before` and appends at most one more, whose id starts with `code` and a '-'. */
  ghost predicate AppendsAtMostOne(code: string, before: seq<Voice>, after: seq<Voice>) {
    after == before || (|after| == |before| + 1 && after == before + [after[|before|]] && StartsWith(after[|before|].id, code + "-"))
  }

  /** `before` is a prefix of `after`. */
  ghost predicate Extends(before: seq<Voice>, after: seq<Voice>) {
    |before| <= |after| && after[..|before|] == before
  }

  /** Every downloadable record carries an id that starts with the language code and a '-'. */
  ghost predicate IdsUnder(code: string, voices: seq<Voice>) {
    forall k :: 0 <= k < |voices| && voices[k].Downloadable? ==> StartsWith(voices[k].id, code + "-")
  }

  /** A quality line under a named voice: the record, or the failure on a missing second URL. */
  function QualityStep(code: string, st: State, line: string, corrected: bool): (r: Result<State, ParseError>)
    requires Truthy(st.voice) && IsListItem(line)
    ensures r.Err? <==> !corrected && |ExtractUrls(line)| < 2
    ensures corrected && |ExtractUrls(line)| < 2 ==> r == Ok(st)
    ensures r.Ok? ==> r.value.lang == st.lang && AppendsAtMostOne(code, st.voices, r.value.voices)
  {
    var urls := ExtractUrls(line);
    if |urls| < 2 then
      if corrected then Ok(st) else Err(MissingConfigUrl(line))
    else
      Ok(st.(voices := st.voices + [Record(code, st.voice.value, line, urls)]))
  }

  /** One iteration of the loop, on a line already stripped. */
  function Step(code: string, st: State, line: string, corrected: bool): (r: Result<State, ParseError>)
    ensures corrected ==> r.Ok?
    ensures r.Ok? ==> AppendsAtMostOne(code, st.voices, r.value.voices)
    ensures r.Ok? && r.value.voices != st.voices ==> r.value.lang == Some(code)
  {
    var st1 := ApplyHeader(st, line);
    if st1.lang != Some(code) then Ok(st1)
    else
      var st2 := if IsVoiceLine(line) then st1.(voice := Some(VoiceName(line))) else st1;
      if Truthy(st2.voice) && IsQualityLine(line) then QualityStep(code, st2, line, corrected) else Ok(st2)
  }

  /** The loop over the lines; it stops at the first failing line. */
  function Run(code: string, st: State, lines: seq<string>, corrected: bool): (r: Result<State, ParseError>)
    ensures corrected ==> r.Ok?
    ensures r.Ok? ==> Extends(st.voices, r.value.voices)
    decreases |lines|
  {
    if |lines| == 0 then Ok(st)
    else
      match Step(code, st, lines[0], corrected)
      case Err(e) => Err(e)
      case Ok(next) =>
        var r := Run(code, next, lines[1..], corrected);
        assert r.Ok? ==> r.value.voices[..|st.voices|] == r.value.voices[..|next.voices|][..|st.voices|];
        r
  }

  /** Records appended by the loop carry ids under the language code, as the earlier ones do. */
  lemma {:induction false} RunKeepsIdsUnder(code: string, st: State, lines: seq<string>, corrected: bool)
    requires IdsUnder(code, st.voices) && Run(code, st, lines, corrected).Ok?
    ensures IdsUnder(code, Run(code, st, lines, corrected).value.voices)
    decreases |lines|
  {
    if |lines| > 0 {
      var next := Step(code, st, lines[0], corrected).value;
      AppendKeepsIdsUnder(code, st.voices, next.voices);
      RunKeepsIdsUnder(code, next, lines[1..], corrected);
    }
  }

  lemma AppendKeepsIdsUnder(code: string, before: seq<Voice>, after: seq<Voice>)
    requires AppendsAtMostOne(code, before, after) && IdsUnder(code, before)
    ensures IdsUnder(code, after)
  {
    forall k | 0 <= k < |after| && after[k].Downloadable?
      ensures StartsWith(after[k].id, code + "-")
    {
      if k < |before| {
        assert after[k] == before[k];
      }
    }
  }

  /** Every line stripped, as the loop does before looking at it. */
  function StripAll(lines: seq<string>): seq<string> {
    if |lines| == 0 then [] else [Strip(lines[0])] + StripAll(lines[1..])
  }

  /** Every line is non-empty with no whitespace at either end. */
  predicate AllTrimmed(lines: seq<string>) {
    |lines| == 0 || (Trimmed(lines[0]) && AllTrimmed(lines[1..]))
  }

  /** Lines already free of surrounding whitespace come through unchanged. */
  lemma {:induction false} StripAllTrimmed(lines: seq<string>)
    requires AllTrimmed(lines)
    ensures StripAll(lines) == lines
    decreases |lines|
  {
    if |lines| > 0 {
      StripTrimmed(lines[0]);
      StripAllTrimmed(lines[1..]);
    }
  }

  /** The placeholder returned when no voice is found. */
  function DefaultVoice(code: string): Voice {
    Fallback(code + "_default", "Default Voice")
  }

  /**
   * The loop over the stripped lines and the placeholder when it found
   * nothing: an error of the loop is the parser's error; otherwise the
   * parser returns the loop's records, or the placeholder alone when there
   * are none (`voices or [placeholder]`).
   */
  function ParseLines(code: string, lines: seq<string>, corrected: bool): (r: Result<seq<Voice>, ParseError>)
    ensures var run := Run(code, START, lines, corrected);
      && (r.Err? <==> run.Err?)
      && (run.Err? ==> r.error == run.error)
      && (run.Ok? && |run.value.voices| > 0 ==> r.value == run.value.voices)
      && (run.Ok? && |run.value.voices| == 0 ==> r.value == [DefaultVoice(code)])
    ensures corrected ==> r.Ok?
    ensures r.Ok? ==> |r.value| > 0
    ensures r.Ok? ==> forall k :: 0 <= k < |r.value| && r.value[k].Downloadable? ==> StartsWith(r.value[k].id, code + "-")
  {
    match Run(code, START, lines, corrected)
    case Err(e) => Err(e)
    case Ok(st) =>
      RunKeepsIdsUnder(code, START, lines, corrected);
      Ok(if |st.voices| == 0 then [DefaultVoice(code)] else st.voices)
  }

  /** `_parse_voices_md(md_text, lang_code)`: the records in document order, or the placeholder. */
  function ParseVoicesMd(md: string, code: string, corrected: bool): (r: Result<seq<Voice>, ParseError>)
    ensures var run := Run(code, START, StripAll(SplitOn(md, '\n')), corrected);
      && (r.Err? <==> run.Err?)
      && (run.Err? ==> r.error == run.error)
      && (run.Ok? && |run.value.voices| > 0 ==> r.value == run.value.voices)
      && (run.Ok? && |run.value.voices| == 0 ==> r.value == [DefaultVoice(code)])
    ensures corrected ==> r.Ok?
    ensures r.Ok? ==> |r.value| > 0
    ensures r.Ok? ==> forall k :: 0 <= k < |r.value| && r.value[k].Downloadable? ==> StartsWith(r.value[k].id, code + "-")
  {
    ParseLines(code, StripAll(SplitOn(md, '\n')), corrected)
  }

  // ---------------------------------------------------------------------------
  // What the line parts mean
  // ---------------------------------------------------------------------------

  /**
   * A header names the text between its first two backticks, cut at the
   * first '_': "* Italian (`it_IT`, Italiano)" names "it".
   */
  lemma {:induction false} HeaderLangBetweenBackticks(a: string, m: string, post: string)
    requires '`' !in a && '`' !in m
    requires IsHeader(a + "`" + m + "`" + post)
    ensures var k := Find(m, '_');
      HeaderLang(a + "`" + m + "`" + post) == Some(if k < 0 then m else m[..k])
  {
    var rest := m + "`" + post;
    assert a + "`" + m + "`" + post == a + ['`'] + rest;
    assert rest == m + ['`'] + post;
    SplitOnConcat(a, '`', rest);
    SplitOnConcat(m, '`', post);
    SplitOnNoSeparator(a, '`');
    SplitOnNoSeparator(m, '`');
    SplitOnFirst(m, '_');
  }

  /** A voice line with a single '*' names its stripped text after the '*'. */
  lemma {:induction false} VoiceNameAfterStar(line: string)
    requires IsListItem(line) && '*' !in line[1..]
    ensures VoiceName(line) == Strip(line[1..])
  {
    assert line == [] + ['*'] + line[1..];
    SplitOnConcat([], '*', line[1..]);
    SplitOnNoSeparator(line[1..], '*');
  }

  /** A quality line "* q - rest" with no other '*' has quality `q` stripped. */
  lemma {:induction false} QualityBeforeDash(q: string, rest: string)
    requires '*' !in q && '-' !in q && '*' !in rest
    requires IsListItem("*" + q + "-" + rest)
    ensures Quality("*" + q + "-" + rest) == Strip(q)
  {
    var tail := q + "-" + rest;
    assert "*" + q + "-" + rest == [] + ['*'] + tail;
    assert tail == q + ['-'] + rest;
    SplitOnConcat([], '*', tail);
    SplitOnNoSeparator(tail, '*');
    SplitOnConcat(q, '-', rest);
    SplitOnNoSeparator(q, '-');
  }

  // ---------------------------------------------------------------------------
  // Properties of a single line
  // ---------------------------------------------------------------------------

  /**
   * A header line sets the language and forgets the voice whatever language
   * is wanted, and yields no record.
   */
  lemma HeaderResets(code: string, st: State, line: string, corrected: bool)
    requires IsHeader(line)
    ensures HeaderLang(line).Some?
    ensures Step(code, st, line, corrected) == Ok(st.(lang := HeaderLang(line), voice := None))
  {
  }

  /** A line that is not a header leaves a state of another language exactly as it is. */
  lemma OtherLanguageLineIgnored(code: string, st: State, line: string, corrected: bool)
    requires st.lang != Some(code) && !IsHeader(line)
    ensures Step(code, st, line, corrected) == Ok(st)
  {
  }

  /** Under the wanted language, a voice line names the current voice and yields no record. */
  lemma VoiceLineSetsVoice(code: string, st: State, line: string, corrected: bool)
    requires st.lang == Some(code) && IsVoiceLine(line)
    ensures Step(code, st, line, corrected) == Ok(st.(voice := Some(VoiceName(line))))
  {
  }

  /**
   * Under the wanted language and a named voice, a quality line with two
   * URLs yields exactly one record: id "{lang}-{voice}-{quality}", name
   * "{voice} ({quality})", the first URL as the model and the second,
   * without ".json", as the config.
   */
  lemma QualityLineRecord(code: string, st: State, line: string, corrected: bool)
    requires st.lang == Some(code) && Truthy(st.voice)
    requires IsQualityLine(line) && !IsHeader(line) && |ExtractUrls(line)| >= 2
    ensures var urls := ExtractUrls(line); var v := st.voice.value; var q := Quality(line);
      Step(code, st, line, corrected) == Ok(st.(voices := st.voices + [
        Downloadable(code + "-" + v + "-" + q, v + " (" + q + ")", urls[0], DropJsonSuffix(urls[1]), q)]))
  {
  }

  /** A quality line with fewer than two URLs fails as written and is skipped when corrected. */
  lemma ShortQualityLine(code: string, st: State, line: string)
    requires st.lang == Some(code) && Truthy(st.voice)
    requires IsQualityLine(line) && !IsHeader(line) && |ExtractUrls(line)| < 2
    ensures Step(code, st, line, false) == Err(MissingConfigUrl(line))
    ensures Step(code, st, line, true) == Ok(st)
  {
  }

  /** A quality line adds nothing before a voice has been named. */
  lemma QualityLineNeedsVoice(code: string, st: State, line: string, corrected: bool)
    requires !Truthy(st.voice) && IsQualityLine(line)
    ensures Step(code, st, line, corrected) == Ok(ApplyHeader(st, line))
  {
  }

  /** The two readings differ only where the as-written one fails. */
  lemma StepAgreesWhenOk(code: string, st: State, line: string)
    requires Step(code, st, line, false).Ok?
    ensures Step(code, st, line, true) == Step(code, st, line, false)
  {
  }

  /** A line whose header, if any, names another language keeps a state of another language recordless. */
  lemma OtherLanguageStep(code: string, st: State, line: string, corrected: bool)
    requires st.lang != Some(code) && HeaderLang(line) != Some(code)
    ensures Step(code, st, line, corrected).Ok?
    ensures Step(code, st, line, corrected).value.voices == st.voices
    ensures Step(code, st, line, corrected).value.lang != Some(code)
  {
  }

  // ---------------------------------------------------------------------------
  // Properties of the whole loop
  // ---------------------------------------------------------------------------

  /** Reading a first line, then the rest from where it left off. */
  lemma RunCons(code: string, st: State, line: string, rest: seq<string>, corrected: bool)
    ensures Step(code, st, line, corrected).Err? ==>
      Run(code, st, [line] + rest, corrected) == Err(Step(code, st, line, corrected).error)
    ensures Step(code, st, line, corrected).Ok? ==>
      Run(code, st, [line] + rest, corrected) == Run(code, Step(code, st, line, corrected).value, rest, corrected)
  {
    assert ([line] + rest)[0] == line && ([line] + rest)[1..] == rest;
  }

  /** The lines are read strictly in order: reading `a + b` is reading `a`, then `b` from where `a` left off. */
  lemma {:induction false} RunAppend(code: string, st: State, a: seq<string>, b: seq<string>, corrected: bool)
    ensures Run(code, st, a + b, corrected) ==
      match Run(code, st, a, corrected)
      case Err(e) => Err(e)
      case Ok(mid) => Run(code, mid, b, corrected)
    decreases |a|
  {
    if |a| == 0 {
      assert a + b == b;
    } else {
      assert (a + b)[0] == a[0] && (a + b)[1..] == a[1..] + b;
      match Step(code, st, a[0], corrected)
      case Err(_) =>
      case Ok(next) => RunAppend(code, next, a[1..], b, corrected);
    }
  }

  /** Whenever the as-written loop gets through, the corrected one gives the same state. */
  lemma {:induction false} RunAgreesWhenOk(code: string, st: State, lines: seq<string>)
    requires Run(code, st, lines, false).Ok?
    ensures Run(code, st, lines, true) == Run(code, st, lines, false)
    decreases |lines|
  {
    if |lines| > 0 {
      StepAgreesWhenOk(code, st, lines[0]);
      RunAgreesWhenOk(code, Step(code, st, lines[0], false).value, lines[1..]);
    }
  }

  /** No header among the lines names `code`. */
  predicate NoHeaderFor(code: string, lines: seq<string>) {
    forall i :: 0 <= i < |lines| ==> HeaderLang(lines[i]) != Some(code)
  }

  /**
   * Lines before any header, or under headers of other languages only,
   * contribute nothing: the records stay as they were.
   */
  lemma {:induction false} OtherLanguagesContributeNothing(code: string, st: State, lines: seq<string>, corrected: bool)
    requires st.lang != Some(code) && NoHeaderFor(code, lines)
    ensures Run(code, st, lines, corrected).Ok?
    ensures Run(code, st, lines, corrected).value.voices == st.voices
    ensures Run(code, st, lines, corrected).value.lang != Some(code)
    decreases |lines|
  {
    if |lines| > 0 {
      OtherLanguageStep(code, st, lines[0], corrected);
      var next := Step(code, st, lines[0], corrected).value;
      assert NoHeaderFor(code, lines[1..]) by {
        forall i | 0 <= i < |lines[1..]|
          ensures HeaderLang(lines[1..][i]) != Some(code)
        {
          assert lines[1..][i] == lines[i + 1];
        }
      }
      OtherLanguagesContributeNothing(code, next, lines[1..], corrected);
    }
  }

  /** A document without a header for the wanted language yields exactly the placeholder record. */
  lemma NoHeaderGivesDefault(md: string, code: string, corrected: bool)
    requires NoHeaderFor(code, StripAll(SplitOn(md, '\n')))
    ensures ParseVoicesMd(md, code, corrected) == Ok([DefaultVoice(code)])
  {
    OtherLanguagesContributeNothing(code, START, StripAll(SplitOn(md, '\n')), corrected);
  }

  // ---------------------------------------------------------------------------
  // URLs
  // ---------------------------------------------------------------------------

  /** A part "a(u)b" that mentions "http", with no parenthesis in `a` or `u`, yields exactly `u`. */
  lemma UrlBetweenParentheses(a: string, u: string, b: string)
    requires '(' !in a && ')' !in a && '(' !in u && ')' !in u
    requires Contains(a + "(" + u + ")" + b, "http")
    ensures PartUrl(a + "(" + u + ")" + b) == [u]
  {
    var p := a + "(" + u + ")" + b;
    var q := a + "(" + u;
    assert ')' !in q;
    assert p == a + ['('] + (u + ")" + b);
    FindAfter(a, '(', u + ")" + b);
    assert p == q + [')'] + b;
    FindAfter(q, ')', b);
    assert p[|a| + 1..|q|] == q[|a| + 1..] == u;
  }

  /** A config URL loses exactly one trailing ".json". */
  lemma DropJsonSuffixInverse(u: string)
    ensures DropJsonSuffix(u + ".json") == u
    ensures !EndsWith(u, ".json") ==> DropJsonSuffix(u) == u
  {
    assert (u + ".json")[|u + ".json"| - 5..] == ".json";
    assert (u + ".json")[..|u|] == u;
  }
}
