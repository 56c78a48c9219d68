/**
 * How the voice manager names a Piper voice from its id: the display name
 * shown in the voice list, the directory and file names a download writes,
 * and the files a voice directory must hold to count as installed.
 *
 * Ids have the form "{lang}-{voice}-{quality}", e.g. "de_DE-kerstin-low".
 * Paths are modelled as their components below the models directory; the
 * file system itself is a parameter (the set of names present).
 */
module PiperVoice {
  import opened Wrappers
  import opened Text
  import VoicesMd

  /** `parts[2]` on an id with exactly two dash-separated parts. */
  datatype NameError = IndexError(id: string)

  /**
   * `_get_voice_name(voice_id)`. With more than one dash-separated part the
   * name is the second part capitalised followed by the third in
   * parentheses; an id without a dash is its own name. As written the guard
   * admits two parts, and `parts[2]` then fails; the corrected reading
   * (`corrected`) guards on more than two parts and names such an id by
   * itself.
   */
  function VoiceName(id: string, corrected: bool): (r: Result<string, NameError>)
    ensures r.Err? <==> !corrected && Count(id, '-') == 1
    ensures r.Err? ==> r.error == IndexError(id)
    ensures '-' !in id ==> r == Ok(id)
    ensures Count(id, '-') >= 2 ==> r.Ok? && |r.value| > 0 && r.value[|r.value| - 1] == ')'
  {
    CountZero(id, '-');
    var parts := SplitOn(id, '-');
    if |parts| > 1 then
      if |parts| > 2 then Ok(Capitalize(parts[1]) + " (" + parts[2] + ")")
      else if corrected then Ok(id)
      else Err(IndexError(id))
    else
      Ok(id)
  }

  /** The language directory of `download_voice`: the id up to its first dash. */
  function LangDir(id: string): (r: string)
    ensures '-' !in r
    ensures StartsWith(id, r)
    ensures r == id || id[|r|] == '-'
  {
    SplitOnFirst(id, '-');
    SplitOn(id, '-')[0]
  }

  function ModelFile(id: string): string {
    id + ".onnx"
  }

  function ConfigFile(id: string): string {
    id + ".onnx.json"
  }

  /** The files `_is_valid_voice` looks for in a voice directory. */
  function RequiredFiles(id: string): seq<string> {
    [ModelFile(id), ConfigFile(id)]
  }

  /**
   * `_is_valid_voice(voice_path, voice_id)`, with `present` the names that
   * exist in `voice_path`.
   */
  predicate IsValidVoice(present: set<string>, id: string) {
    forall f :: f in RequiredFiles(id) ==> f in present
  }

  /** Where `download_voice` puts a voice, as path components below the models directory. */
  datatype Download = Download(voiceDir: seq<string>, modelPath: seq<string>, configPath: seq<string>)

  /** The directory and the two file paths `download_voice` writes. */
  function DownloadVoice(id: string): (d: Download)
    ensures |d.voiceDir| == 2 && d.voiceDir[1] == id
    ensures d.voiceDir[0] == LangDir(id)
    ensures StartsWith(id, d.voiceDir[0]) && '-' !in d.voiceDir[0]
    ensures d.voiceDir[0] == id || id[|d.voiceDir[0]|] == '-'
    ensures |d.modelPath| == 3 && |d.configPath| == 3
    ensures d.modelPath[..|d.modelPath| - 1] == d.voiceDir && d.configPath[..|d.configPath| - 1] == d.voiceDir
    ensures [d.modelPath[|d.modelPath| - 1], d.configPath[|d.configPath| - 1]] == RequiredFiles(id)
  {
    var dir := [LangDir(id), id];
    Download(dir, dir + [ModelFile(id)], dir + [ConfigFile(id)])
  }

  /** The names a download leaves in the voice directory. */
  function Written(d: Download): set<string>
    requires |d.modelPath| > 0 && |d.configPath| > 0
  {
    {d.modelPath[|d.modelPath| - 1], d.configPath[|d.configPath| - 1]}
  }

  // ---------------------------------------------------------------------------
  // Properties
  // ---------------------------------------------------------------------------

  /** A voice directory is valid exactly when it holds both the model and its config. */
  lemma ValidIff(present: set<string>, id: string)
    ensures IsValidVoice(present, id) <==> ModelFile(id) in present && ConfigFile(id) in present
  {
    assert ModelFile(id) in RequiredFiles(id) && ConfigFile(id) in RequiredFiles(id);
  }

  /** A completed download makes its directory a valid voice, whatever else is there. */
  lemma DownloadIsValid(id: string, others: set<string>)
    ensures IsValidVoice(Written(DownloadVoice(id)) + others, id)
  {
    var d := DownloadVoice(id);
    ValidIff(Written(d) + others, id);
  }

  /** The two files are distinct, and each names exactly one voice. */
  lemma FileNamesDistinct(a: string, b: string)
    ensures ModelFile(a) != ConfigFile(a)
    ensures ModelFile(a) == ModelFile(b) ==> a == b
    ensures ConfigFile(a) == ConfigFile(b) ==> a == b
  {
    assert |ModelFile(a)| != |ConfigFile(a)|;
    if ModelFile(a) == ModelFile(b) {
      assert a == ModelFile(a)[..|a|];
    }
    if ConfigFile(a) == ConfigFile(b) {
      assert a == ConfigFile(a)[..|a|];
    }
  }

  /** A missing config file makes the directory invalid. */
  lemma ModelAloneInvalid(present: set<string>, id: string)
    requires ConfigFile(id) !in present
    ensures !IsValidVoice(present, id)
  {
    ValidIff(present, id);
  }

  /** The language directory of "{lang}-…" is `lang` when `lang` has no dash. */
  lemma LangDirOfPrefix(lang: string, rest: string)
    requires '-' !in lang
    ensures LangDir(lang + "-" + rest) == lang
  {
    SplitOnConcat(lang, '-', rest);
    SplitOnNoSeparator(lang, '-');
    assert lang + "-" + rest == lang + ['-'] + rest;
  }

  /** An id is "{lang}-{voice}-{quality}" followed by any further "-…" parts. */
  function VoiceId(lang: string, voice: string, quality: string, more: string): string {
    lang + "-" + voice + "-" + quality + more
  }

  /** The part after the second dash is the quality, whatever follows it. */
  lemma QualityPart(quality: string, more: string)
    requires '-' !in quality
    requires |more| == 0 || more[0] == '-'
    ensures SplitOn(quality + more, '-')[0] == quality
  {
    if |more| == 0 {
      SplitOnNoSeparator(quality, '-');
      assert quality + more == quality;
    } else {
      assert quality + more == quality + ['-'] + more[1..];
      SplitOnConcat(quality, '-', more[1..]);
      SplitOnNoSeparator(quality, '-');
    }
  }

  /** Splitting "{head}-{tail}" at dashes gives `head` followed by the parts of `tail`. */
  lemma SplitAfterHead(head: string, tail: string)
    requires '-' !in head
    ensures SplitOn(head + "-" + tail, '-') == [head] + SplitOn(tail, '-')
  {
    assert head + "-" + tail == head + ['-'] + tail;
    SplitOnConcat(head, '-', tail);
    SplitOnNoSeparator(head, '-');
  }

  lemma VoiceIdParts(lang: string, voice: string, quality: string, more: string)
    requires '-' !in lang && '-' !in voice && '-' !in quality
    requires |more| == 0 || more[0] == '-'
    ensures var parts := SplitOn(VoiceId(lang, voice, quality, more), '-');
      |parts| >= 3 && parts[0] == lang && parts[1] == voice && parts[2] == quality
  {
    var tail := quality + more;
    QualityPart(quality, more);
    SplitAfterHead(voice, tail);
    SplitAfterHead(lang, voice + "-" + tail);
    assert VoiceId(lang, voice, quality, more) == lang + "-" + (voice + "-" + tail);
  }

  /**
   * "{lang}-{voice}-{quality}…" is shown as "{Voice} ({quality})" in both
   * readings; parts after the third do not matter.
   */
  lemma NameOfVoiceId(lang: string, voice: string, quality: string, more: string, corrected: bool)
    requires '-' !in lang && '-' !in voice && '-' !in quality
    requires |more| == 0 || more[0] == '-'
    ensures VoiceName(VoiceId(lang, voice, quality, more), corrected) == Ok(Capitalize(voice) + " (" + quality + ")")
  {
    VoiceIdParts(lang, voice, quality, more);
  }

  /** The id's directory is its language. */
  lemma DownloadDirOfVoiceId(lang: string, voice: string, quality: string, more: string)
    requires '-' !in lang
    ensures DownloadVoice(VoiceId(lang, voice, quality, more)).voiceDir == [lang, VoiceId(lang, voice, quality, more)]
  {
    assert VoiceId(lang, voice, quality, more) == lang + "-" + (voice + "-" + quality + more);
    LangDirOfPrefix(lang, voice + "-" + quality + more);
  }

  /** An id with exactly one dash: the code as written fails, the corrected guard names it by itself. */
  lemma TwoPartId(lang: string, voice: string)
    requires '-' !in lang && '-' !in voice
    ensures VoiceName(lang + "-" + voice, false) == Err(IndexError(lang + "-" + voice))
    ensures VoiceName(lang + "-" + voice, true) == Ok(lang + "-" + voice)
  {
    var id := lang + "-" + voice;
    assert id == lang + ['-'] + voice;
    SplitOnConcat(lang, '-', voice);
    SplitOnNoSeparator(lang, '-');
    SplitOnNoSeparator(voice, '-');
  }

  /** "de_DE-kerstin-low" is shown as "Kerstin (low)". */
  lemma KerstinExample(corrected: bool)
    ensures VoiceName("de_DE-kerstin-low", corrected) == Ok("Kerstin (low)")
  {
    KerstinId();
    NameOfVoiceId("de_DE", "kerstin", "low", "", corrected);
    KerstinCapitalized();
  }

  lemma KerstinId()
    ensures "de_DE-kerstin-low" == VoiceId("de_DE", "kerstin", "low", "")
    ensures '-' !in "de_DE" && '-' !in "kerstin" && '-' !in "low"
  {
  }

  lemma KerstinCapitalized()
    ensures Capitalize("kerstin") + " (" + "low" + ")" == "Kerstin (low)"
  {
    LowerOfLowercase("erstin");
    assert "kerstin"[1..] == "erstin";
  }

  /** An id that starts with "{code}-" downloads into the directory `code`, when `code` has no dash. */
  lemma LangDirOfStartsWith(code: string, id: string)
    requires '-' !in code && StartsWith(id, code + "-")
    ensures DownloadVoice(id).voiceDir[0] == code
  {
    assert id == code + "-" + id[|code| + 1..];
    LangDirOfPrefix(code, id[|code| + 1..]);
  }

  /**
   * Every record the `VOICES.md` reader produces for a dash-free language
   * code downloads into that language's directory.
   */
  lemma ParsedVoicesDownloadUnderLang(md: string, code: string, corrected: bool)
    requires '-' !in code
    ensures var r := VoicesMd.ParseVoicesMd(md, code, corrected);
      r.Ok? ==> forall k :: 0 <= k < |r.value| && r.value[k].Downloadable? ==>
        DownloadVoice(r.value[k].id).voiceDir[0] == code
  {
    var r := VoicesMd.ParseVoicesMd(md, code, corrected);
    if r.Ok? {
      var voices := r.value;
      forall k | 0 <= k < |voices| && voices[k].Downloadable?
        ensures DownloadVoice(voices[k].id).voiceDir[0] == code
      {
        LangDirOfStartsWith(code, voices[k].id);
      }
    }
  }
}
