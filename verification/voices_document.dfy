/**
 * What the `VOICES.md` reader makes of a whole document in the layout Piper
 * publishes: a language header, a voice line and a quality line carrying a
 * model link and a config link.
 *
 *   * Italian (`it_IT`, Italiano)
 *   * paola
 *   * medium - [[model](https://…/it_IT-paola-medium.onnx)] [[config](https://…/it_IT-paola-medium.onnx.json)]
 *
 * The lines are built from their variable pieces; the requirements on the
 * pieces are the characters the reader splits or searches at.
 */
module VoicesDocument {
  import opened Wrappers
  import opened Text
  import opened VoicesMd

  /** No character of `s` is one of `cs`. */
  predicate Avoids(s: string, cs: string) {
    forall i :: 0 <= i < |s| ==> s[i] !in cs
  }

  function HeaderLine(name: string, lang: string, region: string, native: string): string {
    "* " + name + " (`" + lang + "_" + region + "`, " + native + ")"
  }

  function VoiceLine(voice: string): string {
    "* " + voice
  }

  function QualityLine(quality: string, model: string, config: string): string {
    "* " + quality + " - [[model](" + model + ")] [[config](" + config + ")]"
  }

  /** A quality line that lost its config link. */
  function ModelOnlyLine(quality: string, model: string): string {
    "* " + quality + " - [[model](" + model + ")]"
  }

  predicate GoodHeader(name: string, lang: string, region: string, native: string) {
    Avoids(name, "`\n") && Avoids(lang, "`_\n") && Avoids(region, "`\n") && Avoids(native, "\n")
  }

  predicate GoodVoice(voice: string) {
    Trimmed(voice) && Avoids(voice, "*(\n") && !Contains(voice, "http")
  }

  predicate GoodQuality(quality: string) {
    Trimmed(quality) && Avoids(quality, "*-[()`\n")
  }

  predicate GoodUrl(u: string) {
    StartsWith(u, "http") && Avoids(u, "*[()`\n")
  }

  // ---------------------------------------------------------------------------
  // The three kinds of line
  // ---------------------------------------------------------------------------

  /** The header around its backticks. */
  lemma HeaderLineShape(name: string, lang: string, region: string, native: string)
    ensures HeaderLine(name, lang, region, native)
      == ("* " + name + " (") + "`" + (lang + "_" + region) + "`" + (", " + native + ")")
  {
  }

  lemma HeaderLineKind(name: string, lang: string, region: string, native: string)
    ensures IsHeader(HeaderLine(name, lang, region, native))
  {
    var h := HeaderLine(name, lang, region, native);
    var k := |"* " + name + " ("| - 1;
    assert h[k..k + 2] == "(`";
    OccursImpliesContains(h, "(`", k);
  }

  lemma HeaderLineLang(name: string, lang: string, region: string, native: string)
    requires GoodHeader(name, lang, region, native)
    ensures HeaderLang(HeaderLine(name, lang, region, native)) == Some(lang)
  {
    HeaderLineShape(name, lang, region, native);
    HeaderLineKind(name, lang, region, native);
    HeaderLangBetweenBackticks("* " + name + " (", lang + "_" + region, ", " + native + ")");
    FindAfter(lang, '_', region);
  }

  lemma HeaderLineRead(name: string, lang: string, region: string, native: string)
    requires GoodHeader(name, lang, region, native)
    ensures var h := HeaderLine(name, lang, region, native);
      Trimmed(h) && '\n' !in h && HeaderLang(h) == Some(lang)
  {
    HeaderLineEnds(name, lang, region, native);
    HeaderLineSingle(name, lang, region, native);
    HeaderLineLang(name, lang, region, native);
  }

  lemma HeaderLineEnds(name: string, lang: string, region: string, native: string)
    ensures var h := HeaderLine(name, lang, region, native);
      h[0] == '*' && h[|h| - 1] == ')'
  {
  }

  lemma HeaderLineSingle(name: string, lang: string, region: string, native: string)
    requires GoodHeader(name, lang, region, native)
    ensures '\n' !in HeaderLine(name, lang, region, native)
  {
  }

  lemma VoiceLineKind(voice: string)
    requires GoodVoice(voice)
    ensures IsVoiceLine(VoiceLine(voice))
  {
    var v := VoiceLine(voice);
    MissingCharNotContained(v, "(`", 0);
    PrefixKeepsNotContained("* ", voice, "http");
  }

  lemma VoiceLineName(voice: string)
    requires GoodVoice(voice)
    ensures IsListItem(VoiceLine(voice)) && VoiceName(VoiceLine(voice)) == voice
  {
    var v := VoiceLine(voice);
    VoiceLineTail(voice);
    VoiceNameAfterStar(v);
    StripAfterSpace(voice);
  }

  lemma VoiceLineTail(voice: string)
    ensures VoiceLine(voice)[1..] == " " + voice
  {
  }

  lemma VoiceLineTrimmed(voice: string)
    requires GoodVoice(voice)
    ensures Trimmed(VoiceLine(voice)) && '\n' !in VoiceLine(voice)
  {
  }

  lemma VoiceLineRead(voice: string)
    requires GoodVoice(voice)
    ensures var v := VoiceLine(voice);
      Trimmed(v) && '\n' !in v && IsVoiceLine(v) && VoiceName(v) == voice
  {
    VoiceLineTrimmed(voice);
    VoiceLineKind(voice);
    VoiceLineName(voice);
  }

  /** The quality line around its '[' brackets. */
  lemma QualityLineBrackets(quality: string, model: string, config: string)
    ensures QualityLine(quality, model, config) ==
      ("* " + quality + " - ") + ['['] + ([] + ['['] + (("model](" + model + ")] ") + ['['] + ([] + ['['] + ("config](" + config + ")]"))))
  {
  }

  /** The parts of a quality line between '[' brackets. */
  lemma QualityLineParts(quality: string, model: string, config: string)
    requires GoodQuality(quality) && GoodUrl(model) && GoodUrl(config)
    ensures SplitOn(QualityLine(quality, model, config), '[') ==
      ["* " + quality + " - ", "", "model](" + model + ")] ", "", "config](" + config + ")]"]
  {
    var p0, p2, p4 := "* " + quality + " - ", "model](" + model + ")] ", "config](" + config + ")]";
    var r3 := [] + ['['] + p4;
    var r2 := p2 + ['['] + r3;
    var r1 := [] + ['['] + r2;
    QualityLineBrackets(quality, model, config);
    QualityPartsBracketFree(quality, model, config);
    SplitOnHead(p0, '[', r1);
    SplitOnHead([], '[', r2);
    SplitOnHead(p2, '[', r3);
    SplitOnHead([], '[', p4);
    SplitOnNoSeparator(p4, '[');
  }

  lemma QualityPartsBracketFree(quality: string, model: string, config: string)
    requires GoodQuality(quality) && GoodUrl(model) && GoodUrl(config)
    ensures '[' !in "* " + quality + " - " && '[' !in "model](" + model + ")] " && '[' !in "config](" + config + ")]"
  {
  }

  /** The link of a part "label](url)…". */
  lemma LinkPart(lead: string, u: string, tail: string)
    requires GoodUrl(u) && Avoids(lead, "()")
    ensures PartUrl(lead + "(" + u + ")" + tail) == [u]
  {
    var p := lead + "(" + u + ")" + tail;
    assert p[|lead| + 1..|lead| + 5] == "http";
    OccursImpliesContains(p, "http", |lead| + 1);
    UrlBetweenParentheses(lead, u, tail);
  }

  /** The link of a part "label](url)…", given as its opening "label](", the URL and its closing ")…". */
  lemma LabelLink(open: string, u: string, close: string)
    requires |open| > 0 && open[|open| - 1] == '(' && Avoids(open[..|open| - 1], "()")
    requires |close| > 0 && close[0] == ')'
    requires GoodUrl(u)
    ensures PartUrl(open + u + close) == [u]
  {
    var lead := open[..|open| - 1];
    assert open == lead + "(";
    assert close == ")" + close[1..];
    assert open + u + close == lead + "(" + u + ")" + close[1..];
    LinkPart(lead, u, close[1..]);
  }

  /** The text before the first '[' has no '(' and so no link. */
  lemma LeadPartHasNoLink(quality: string)
    requires GoodQuality(quality)
    ensures PartUrl("* " + quality + " - ") == []
  {
    assert '(' !in "* " + quality + " - ";
  }

  lemma FiveParts(p0: string, p2: string, p4: string, u: string, w: string)
    requires PartUrl(p0) == [] && PartUrl(p2) == [u] && PartUrl(p4) == [w]
    ensures PartsUrls([p0, "", p2, "", p4]) == [u, w]
  {
    var parts := [p0, "", p2, "", p4];
    assert PartsUrls(parts[4..]) == [w];
    assert PartsUrls(parts[2..]) == [u] + PartsUrls(parts[3..]);
    assert PartsUrls(parts) == PartsUrls(parts[2..]);
  }

  lemma QualityLineUrls(quality: string, model: string, config: string)
    requires GoodQuality(quality) && GoodUrl(model) && GoodUrl(config)
    ensures ExtractUrls(QualityLine(quality, model, config)) == [model, config]
  {
    QualityLineParts(quality, model, config);
    LeadPartHasNoLink(quality);
    LabelLink("model](", model, ")] ");
    LabelLink("config](", config, ")]");
    FiveParts("* " + quality + " - ", "model](" + model + ")] ", "config](" + config + ")]", model, config);
  }

  lemma QualityLineEnds(quality: string, model: string, config: string)
    ensures var q := QualityLine(quality, model, config);
      q[0] == '*' && q[|q| - 1] == ']'
  {
  }

  lemma QualityLineSingle(quality: string, model: string, config: string)
    requires GoodQuality(quality) && GoodUrl(model) && GoodUrl(config)
    ensures '\n' !in QualityLine(quality, model, config) && '`' !in QualityLine(quality, model, config)
  {
  }

  lemma QualityLineHttp(quality: string, model: string, config: string)
    requires GoodUrl(model)
    ensures var q := QualityLine(quality, model, config);
      var k := |"* " + quality + " - [[model]("|; q[k..k + 4] == "http"
  {
  }

  lemma QualityLineKind(quality: string, model: string, config: string)
    requires GoodQuality(quality) && GoodUrl(model) && GoodUrl(config)
    ensures IsQualityLine(QualityLine(quality, model, config)) && !IsHeader(QualityLine(quality, model, config))
  {
    var q := QualityLine(quality, model, config);
    QualityLineHttp(quality, model, config);
    OccursImpliesContains(q, "http", |"* " + quality + " - [[model]("|);
    QualityLineSingle(quality, model, config);
    MissingCharNotContained(q, "(`", 1);
  }

  /** The quality line around its first '-'. */
  lemma QualityLineDash(quality: string, model: string, config: string)
    ensures QualityLine(quality, model, config) ==
      "*" + (" " + quality + " ") + "-" + (" [[model](" + model + ")] [[config](" + config + ")]")
  {
  }

  lemma QualityLineQuality(quality: string, model: string, config: string)
    requires GoodQuality(quality) && GoodUrl(model) && GoodUrl(config)
    ensures IsListItem(QualityLine(quality, model, config)) && Quality(QualityLine(quality, model, config)) == quality
  {
    var q, rest := " " + quality + " ", " [[model](" + model + ")] [[config](" + config + ")]";
    QualityLineDash(quality, model, config);
    QualityPiecesClean(quality, model, config);
    QualityBeforeDash(q, rest);
    StripPadded(" ", quality, " ");
  }

  /** The padded quality holds no '*' or '-', and the links hold no '*'. */
  lemma QualityPiecesClean(quality: string, model: string, config: string)
    requires GoodQuality(quality) && GoodUrl(model) && GoodUrl(config)
    ensures var q := " " + quality + " ";
      '*' !in q && '-' !in q
    ensures '*' !in " [[model](" + model + ")] [[config](" + config + ")]"
    ensures IsListItem(QualityLine(quality, model, config))
  {
    var line := QualityLine(quality, model, config);
    assert line[..2] == "* ";
  }

  lemma QualityLineTrimmed(quality: string, model: string, config: string)
    requires GoodQuality(quality) && GoodUrl(model) && GoodUrl(config)
    ensures Trimmed(QualityLine(quality, model, config)) && '\n' !in QualityLine(quality, model, config)
  {
    QualityLineEnds(quality, model, config);
    QualityLineSingle(quality, model, config);
  }

  lemma QualityLineRead(quality: string, model: string, config: string)
    requires GoodQuality(quality) && GoodUrl(model) && GoodUrl(config)
    ensures var q := QualityLine(quality, model, config);
      && Trimmed(q) && '\n' !in q && IsQualityLine(q) && !IsHeader(q)
      && Quality(q) == quality && ExtractUrls(q) == [model, config]
  {
    QualityLineTrimmed(quality, model, config);
    QualityLineKind(quality, model, config);
    QualityLineQuality(quality, model, config);
    QualityLineUrls(quality, model, config);
  }

  lemma ModelOnlyLineBrackets(quality: string, model: string)
    ensures ModelOnlyLine(quality, model) ==
      ("* " + quality + " - ") + ['['] + ([] + ['['] + ("model](" + model + ")]"))
  {
  }

  lemma ModelOnlyLineParts(quality: string, model: string)
    requires GoodQuality(quality) && GoodUrl(model)
    ensures SplitOn(ModelOnlyLine(quality, model), '[') == ["* " + quality + " - ", "", "model](" + model + ")]"]
  {
    var p0, p2 := "* " + quality + " - ", "model](" + model + ")]";
    ModelOnlyLineBrackets(quality, model);
    SplitOnConcat(p0, '[', [] + ['['] + p2);
    SplitOnConcat([], '[', p2);
    SplitOnNoSeparator(p0, '[');
    SplitOnNoSeparator(p2, '[');
    SplitOnNoSeparator([], '[');
  }

  lemma ModelOnlyLineUrls(quality: string, model: string)
    requires GoodQuality(quality) && GoodUrl(model)
    ensures ExtractUrls(ModelOnlyLine(quality, model)) == [model]
  {
    ModelOnlyLineParts(quality, model);
    LeadPartHasNoLink(quality);
    LabelLink("model](", model, ")]");
    ThreeParts("* " + quality + " - ", "model](" + model + ")]", model);
  }

  lemma ThreeParts(p0: string, p2: string, u: string)
    requires PartUrl(p0) == [] && PartUrl(p2) == [u]
    ensures PartsUrls([p0, "", p2]) == [u]
  {
    var parts := [p0, "", p2];
    assert PartsUrls(parts[2..]) == [u];
    assert PartsUrls(parts) == PartsUrls(parts[2..]);
  }

  lemma ModelOnlyLineKind(quality: string, model: string)
    requires GoodQuality(quality) && GoodUrl(model)
    ensures var s := ModelOnlyLine(quality, model);
      Trimmed(s) && '\n' !in s && IsQualityLine(s) && !IsHeader(s)
  {
    var s := ModelOnlyLine(quality, model);
    ModelOnlyLineFacts(quality, model);
    var k := |"* " + quality + " - [[model]("|;
    OccursImpliesContains(s, "http", k);
    MissingCharNotContained(s, "(`", 1);
  }

  lemma ModelOnlyLineFacts(quality: string, model: string)
    requires GoodQuality(quality) && GoodUrl(model)
    ensures var s := ModelOnlyLine(quality, model); var k := |"* " + quality + " - [[model]("|;
      s[0] == '*' && s[|s| - 1] == ']' && '\n' !in s && '`' !in s && s[k..k + 4] == "http"
  {
  }

  // ---------------------------------------------------------------------------
  // Whole documents
  // ---------------------------------------------------------------------------

  /** Three trimmed lines joined by newlines are read back as the three lines. */
  lemma ThreeLines(h: string, v: string, q: string)
    requires '\n' !in h && '\n' !in v && '\n' !in q
    requires Trimmed(h) && Trimmed(v) && Trimmed(q)
    ensures StripAll(SplitOn(h + "\n" + v + "\n" + q, '\n')) == [h, v, q]
  {
    ThreeSplit(h, v, q);
    assert [h, v, q][1..] == [v, q] && [v, q][1..] == [q] && [q][1..] == [];
    assert AllTrimmed([q]);
    assert AllTrimmed([v, q]);
    StripAllTrimmed([h, v, q]);
  }

  lemma ThreeSplit(h: string, v: string, q: string)
    requires '\n' !in h && '\n' !in v && '\n' !in q
    ensures SplitOn(h + "\n" + v + "\n" + q, '\n') == [h, v, q]
  {
    assert h + "\n" + v + "\n" + q == h + ['\n'] + (v + ['\n'] + q);
    SplitOnConcat(h, '\n', v + ['\n'] + q);
    SplitOnConcat(v, '\n', q);
    SplitOnNoSeparator(h, '\n');
    SplitOnNoSeparator(v, '\n');
    SplitOnNoSeparator(q, '\n');
  }

  /** The state after a header of `code` and a voice line. */
  lemma HeaderThenVoice(code: string, h: string, v: string, corrected: bool)
    requires HeaderLang(h) == Some(code)
    requires IsVoiceLine(v)
    ensures Step(code, START, h, corrected) == Ok(State(Some(code), None, []))
    ensures Step(code, State(Some(code), None, []), v, corrected) == Ok(State(Some(code), Some(VoiceName(v)), []))
  {
    HeaderResets(code, START, h, corrected);
    VoiceLineSetsVoice(code, State(Some(code), None, []), v, corrected);
  }

  lemma ThreeAsCons<T>(h: T, v: T, q: T)
    ensures [h, v, q] == [h] + [v, q] && [v, q] == [v] + [q] && [q] == [q] + []
  {
  }

  /** Reading three lines is three steps. */
  lemma RunThree(code: string, st: State, h: string, v: string, q: string, corrected: bool, s1: State, s2: State)
    requires Step(code, st, h, corrected) == Ok(s1) && Step(code, s1, v, corrected) == Ok(s2)
    ensures Run(code, st, [h, v, q], corrected) == Step(code, s2, q, corrected)
  {
    ThreeAsCons(h, v, q);
    RunCons(code, st, h, [v, q], corrected);
    RunCons(code, s1, v, [q], corrected);
    RunCons(code, s2, q, [], corrected);
  }

  /** A header of `code`, a voice line and a quality line with two links give one record. */
  lemma OneVoiceRun(code: string, h: string, v: string, q: string, corrected: bool)
    requires HeaderLang(h) == Some(code)
    requires IsVoiceLine(v) && |VoiceName(v)| > 0
    requires IsQualityLine(q) && !IsHeader(q) && |ExtractUrls(q)| >= 2
    ensures var w, k, urls := VoiceName(v), Quality(q), ExtractUrls(q);
      Run(code, START, [h, v, q], corrected) == Ok(State(Some(code), Some(w), [
        Downloadable(code + "-" + w + "-" + k, w + " (" + k + ")", urls[0], DropJsonSuffix(urls[1]), k)]))
  {
    HeaderThenVoice(code, h, v, corrected);
    RunThree(code, START, h, v, q, corrected, State(Some(code), None, []), State(Some(code), Some(VoiceName(v)), []));
    QualityLineRecord(code, State(Some(code), Some(VoiceName(v)), []), q, corrected);
  }

  /** A header of `code`, a voice line and a quality line with one link. */
  lemma ModelOnlyRun(code: string, h: string, v: string, s: string)
    requires HeaderLang(h) == Some(code)
    requires IsVoiceLine(v) && |VoiceName(v)| > 0
    requires IsQualityLine(s) && !IsHeader(s) && |ExtractUrls(s)| < 2
    ensures Run(code, START, [h, v, s], false) == Err(MissingConfigUrl(s))
    ensures Run(code, START, [h, v, s], true) == Ok(State(Some(code), Some(VoiceName(v)), []))
  {
    HeaderThenVoice(code, h, v, false);
    HeaderThenVoice(code, h, v, true);
    RunThree(code, START, h, v, s, false, State(Some(code), None, []), State(Some(code), Some(VoiceName(v)), []));
    RunThree(code, START, h, v, s, true, State(Some(code), None, []), State(Some(code), Some(VoiceName(v)), []));
    ShortQualityLine(code, State(Some(code), Some(VoiceName(v)), []), s);
  }

  /**
   * A document of one header, one voice line and one quality line with both
   * links yields exactly one record: id "{lang}-{voice}-{quality}", name
   * "{voice} ({quality})", the model link, and the config link without
   * ".json"; both readings agree.
   */
  lemma ParseOneVoiceDocument(name: string, lang: string, region: string, native: string,
                              voice: string, quality: string, model: string, config: string, corrected: bool)
    requires GoodHeader(name, lang, region, native) && GoodVoice(voice)
    requires GoodQuality(quality) && GoodUrl(model) && GoodUrl(config)
    ensures ParseVoicesMd(HeaderLine(name, lang, region, native) + "\n" + VoiceLine(voice) + "\n" + QualityLine(quality, model, config), lang, corrected)
      == Ok([Downloadable(lang + "-" + voice + "-" + quality, voice + " (" + quality + ")", model, DropJsonSuffix(config), quality)])
  {
    var h, v, q := HeaderLine(name, lang, region, native), VoiceLine(voice), QualityLine(quality, model, config);
    HeaderLineRead(name, lang, region, native);
    VoiceLineRead(voice);
    QualityLineRead(quality, model, config);
    ThreeLines(h, v, q);
    OneVoiceRun(lang, h, v, q, corrected);
  }

  /**
   * The same document with the config link missing: the code as written
   * fails on the quality line, the corrected reading skips it and returns
   * the placeholder.
   */
  lemma ParseModelOnlyDocument(name: string, lang: string, region: string, native: string,
                               voice: string, quality: string, model: string)
    requires GoodHeader(name, lang, region, native) && GoodVoice(voice)
    requires GoodQuality(quality) && GoodUrl(model)
    ensures var md := HeaderLine(name, lang, region, native) + "\n" + VoiceLine(voice) + "\n" + ModelOnlyLine(quality, model);
      && ParseVoicesMd(md, lang, false) == Err(MissingConfigUrl(ModelOnlyLine(quality, model)))
      && ParseVoicesMd(md, lang, true) == Ok([DefaultVoice(lang)])
  {
    var h, v, s := HeaderLine(name, lang, region, native), VoiceLine(voice), ModelOnlyLine(quality, model);
    HeaderLineRead(name, lang, region, native);
    VoiceLineRead(voice);
    ModelOnlyLineKind(quality, model);
    ModelOnlyLineUrls(quality, model);
    ThreeLines(h, v, s);
    ModelOnlyRun(lang, h, v, s);
  }
}
