# Parolu: the text and voice-list core, modelled in Dafny

Parolu reads Esperanto text aloud with Piper voices. This project models
the pure logic under that:

- **The Esperanto converter** (`src/vocx.py`, module `Vocx`). A rule
  document of letters, fragments, overrides and numbers is loaded into a
  converter. `convert` then rewrites text in four fixed stages:
  1. whole-word overrides;
  2. numeral substitution;
  3. fragment substitution, either literal or one of two regex shapes;
  4. a letter-by-letter pass.

  The model follows the code as written, including the way the rule
  document is decoded. Module `VocxIntended` is the corrected converter
  used by the findings below.
- **The reader of Piper's `VOICES.md`** (`_parse_voices_md` in
  `src/window.py`, module `VoicesMd`). It is a line-driven state machine
  over the current language, the current voice and the records so far. It
  turns list lines into voice records and falls back to a placeholder
  record. Module `VoicesDocument` builds whole documents in Piper's layout
  and proves what the reader makes of them.
- **Voice-id naming** (`src/pipervoice.py`, module `PiperVoice`):
  - the display name of an id;
  - the directory and file names a download writes;
  - the files a voice directory needs to count as installed.

Module `Text` gives the Python string operations the code relies on:
`split(c)`, `split()`, `strip()`, `lower()`, `capitalize()`, `find`,
`replace` and `in`. Module `Wrappers` holds `Option` and `Result`. Where
the code can raise, the model returns `Err`.

Two failing paths take a `corrected` flag:
- the crash on a quality line with fewer than two links;
- the crash on an id with exactly two parts.

With the flag false the model is the code as written. With it true, it is
the evidently intended behaviour.

Three consequences of the rule tables and the stage order are worth
spelling out, because the tables read as if they meant otherwise:
- `src/vocx.py:50-51` replaces the numerals in the dict's insertion order,
  and the ten digits come first (`src/vocx.py:141-150`). By the time "10",
  "100", "1000" and "1000000" (`src/vocx.py:151-154`) are tried, no digit
  is left, so those entries never fire (`Vocx.HundredSpelledDigitByDigit`).
- The override value for "bv" is "bonvolu" (`src/vocx.py:138`). The letter
  pass at `src/vocx.py:62-66` runs afterwards over the whole text and maps
  its 'v' to 'w', so "bv" converts to "bonwolu" (`Vocx.ConvertBv`).
- "5" becomes "kvijn" in the numeral stage (`src/vocx.py:146`), and the
  letter pass then turns it into "kwijyn" (`Vocx.ConvertFive`).

## Model

| member | source | states |
|---|---|---|
| Vocx.CompileFragment | src/vocx.py:5-11 | A fragment is a regex exactly when it starts with '^' or ends with backslash-'b'; a plain fragment always loads; a loaded rule keeps its source text and replacement |
| Vocx.CompileFragments | src/vocx.py:23-28 | The fragment list loads iff every fragment does, giving one rule per fragment in document order |
| Vocx.LastValue | src/vocx.py:31-34 | For a key, the value of its last entry in the table, or none when the key is absent |
| Vocx.OverrideMap | src/vocx.py:31-34 | Every override key is in the dict, mapped to the value of its last entry (later entries win) |
| Vocx.LastValueListed | src/vocx.py:31-34 | The value the dict keeps for a word is one of the entries listed for that word |
| Vocx.Load | src/vocx.py:18-37 | Loading fails only on a fragment it cannot compile; it keeps the letters and the numbers in order and builds the override dict |
| Vocx.DefaultRulesLoad | src/vocx.py:14-16 | The built-in rule document loads to the default converter |
| Vocx.RawOverridesMap | src/vocx.py:130-139 | The dict built from the override list is exactly the eight-entry override table |
| Vocx.WordEndRulesAreLiteral | src/vocx.py:111-117 | In the built-in document the seven "…\b" fragments end in a backspace character, so none loads as a word-end regex; all are literal rules |
| Vocx.AnchoredRuleOnlyAtTextStart | src/vocx.py:123 | "^sij" rewrites only the start of the whole text, not the start of later words |
| Vocx.OverrideWord | src/vocx.py:42-45 | One word of the override loop: it becomes the value of its lowercase form when that is a key, and is otherwise kept, so the result is the word or an override value; Vocx.OverrideOfLowercase gives the lookup |
| Vocx.OverrideStage | src/vocx.py:41-47 | Stage 1, `split()`, the per-word lookup and `' '.join`; Vocx.OverrideStageRewritesWholeWords and Vocx.OverrideStageOneWord state its result |
| Vocx.OverrideStageRewritesWholeWords | src/vocx.py:41-47 | The override stage keeps the text's words in order; a word whose lowercase is a key becomes its value, any other word is kept; the result is its words joined by single spaces |
| Vocx.OverrideStageOneWord | src/vocx.py:41-47 | A single word goes through the override stage as the lookup of that word |
| Vocx.OverrideOfLowercase | src/vocx.py:43-45 | A word without capitals is looked up as it is: a key becomes its value, any other word is kept |
| Vocx.ReplaceEach | src/vocx.py:50-51 | Stage 2, `text.replace(num, repl)` for every numeral in table order; Vocx.NumeralStageSpellsDigits relates it to an independent digit speller |
| Vocx.NumeralStageSpellsDigits | src/vocx.py:49-51 | With the built-in numbers the numeral stage spells every digit on its own, leaves no digit behind, and never uses a multi-digit entry |
| Vocx.DigitNumeralsSpellDigits | src/vocx.py:140-150 | Replacing the ten digit entries in order spells each digit of any text independently |
| Vocx.HundredSpelledDigitByDigit | src/vocx.py:50-51 | "100" becomes "ununulonulo", not "tsent" |
| Vocx.ApplyFragment | src/vocx.py:54-58 | One fragment rule: a literal is `str.replace`, an anchored regex rewrites only the start of the text, a word-end regex is `re.sub` with `\b`; VocxIntended.SubAtWordEndFirstMatch and Text.ReplaceAllFirstOccurrence state how each fires |
| Vocx.ApplyFragments | src/vocx.py:53-58 | Stage 3, the fragment rules in declared order, each on the previous output; Vocx.ApplyFragmentsAppend and Vocx.FragmentsUntouched state its properties |
| Vocx.SubAtWordEnd | src/vocx.py:56 | `re.sub(t + r'\b', rep, text)` for a plain pattern: leftmost, non-overlapping occurrences followed by a word boundary; VocxIntended.SubAtWordEndFirstMatch and VocxIntended.SubAtWordEndNeedsBoundary state both directions |
| Vocx.ApplyFragmentsAppend | src/vocx.py:53-58 | Fragment rules run in sequence: two rule lists run one after the other equal their concatenation |
| Vocx.FragmentsUntouched | src/vocx.py:53-58 | Text that lacks some character of every rule's pattern passes the fragment stage unchanged |
| Vocx.FragmentsShortText | src/vocx.py:53-58 | Text shorter than every pattern passes the fragment stage unchanged |
| Vocx.LetterStage | src/vocx.py:60-68 | Stage 4, the per-character pass; Vocx.LetterStageImages relates it to the concatenation of per-character images |
| Vocx.LetterStageAppend | src/vocx.py:60-68 | The letter pass maps each character on its own: it distributes over concatenation |
| Vocx.LetterStageOne | src/vocx.py:62-66 | One character becomes its table value, or stays itself when it has none |
| Vocx.LetterStagePassThrough | src/vocx.py:65-66 | Characters without a letter rule pass through unchanged |
| Vocx.LetterStageKept | src/vocx.py:62-66 | Text whose characters have no letter rule, or a rule giving the character itself, passes through unchanged |
| Vocx.LetterStageBetween | src/vocx.py:62-68 | Between two such kept pieces the letter pass rewrites only the middle |
| Vocx.LetterStageImages | src/vocx.py:62-68 | The letter pass is the concatenation of every character's table value, or of the character itself, in order |
| Vocx.LetterStageLength | src/vocx.py:60-68 | The letter pass never shortens the text when every letter value is non-empty |
| Vocx.LetterPassDoesNotRescan | src/vocx.py:85-86 | Output of the letter pass is not rescanned: "ij" becomes "ijy", not "ijyy" |
| Vocx.Convert | src/vocx.py:39-68 | `convert`: overrides, then numerals, then fragments, then letters, each on the previous output; the lemmas below state what each stage does and what whole conversions give |
| Vocx.ConvertText | src/vocx.py:161-163 | `convert_text`: `convert` on the converter built from the default rules; Vocx.ConvertEmpty and the sample conversions state its results |
| Vocx.ConvertEmpty | src/vocx.py:161-163 | Converting the empty text gives the empty text |
| Vocx.ConvertSingleCharacter | src/vocx.py:39-68 | A single non-space, non-digit character converts to its letter value, or to itself |
| Vocx.ConvertPlainWord | src/vocx.py:39-68 | A word whose override value holds no digit and no fragment key converts to the letter pass of that value |
| Vocx.ConvertOk | src/vocx.py:131 | "ok" converts to "ohk" |
| Vocx.ConvertBv | src/vocx.py:138 | "bv" converts to "bonwolu": the override value is itself run through the letter pass |
| Vocx.ConvertCircumflexC | src/vocx.py:77 | "ĉ" converts to "cz" |
| Vocx.RadioKeepsFinalIo | src/vocx.py:112 | The fragment stage leaves "radio" unchanged: no rule matches it |
| Vocx.ConvertRadio | src/vocx.py:112 | "radio" converts to "radijo": the "io" word-end rule does not fire |
| Vocx.ConvertFive | src/vocx.py:146 | "5" converts to "kwijyn" |
| VocxIntended.IntendedDiffersOnlyInBackspaces | src/vocx.py:111-117 | The corrected fragment list differs from the loaded one only in the seven word-end entries, whose trailing backspace becomes backslash-'b' |
| VocxIntended.IntendedFragmentsCompile | src/vocx.py:25 | With real backslash-'b' endings the seven word-end entries load as word-end rules |
| VocxIntended.SortLongestFirst | src/vocx.py:50-51 | The corrected numeral order lists longer keys first and is a permutation of the table: every entry kept, none invented |
| VocxIntended.IntendedNumbersSorted | src/vocx.py:140-155 | The built-in numerals sorted longest first are the four multi-digit entries, longest first, then the digits in table order |
| VocxIntended.LoadIntended | src/vocx.py:18-37 | The corrected load succeeds exactly when the as-written load does; it has the same letters, fragments and overrides, with the numbers sorted longest first |
| VocxIntended.HundredSpelledWhole | src/vocx.py:152 | Under the corrected order "100" becomes "tsent" |
| VocxIntended.SubAtWordEndFirstMatch | src/vocx.py:56 | A word-end rule rewrites the first occurrence of its pattern that ends at a word boundary, keeps the text before it and resumes the scan after it |
| VocxIntended.SubAtWordEndFiresAt | src/vocx.py:56 | The same scan from any position, up to the first occurrence that ends at a word boundary |
| VocxIntended.SubAtWordEndNeedsBoundary | src/vocx.py:56 | A word-end rule leaves text alone when no occurrence of its pattern ends at a word boundary |
| VocxIntended.IoInsideWordKept | src/vocx.py:112 | "io" inside a word ("iom") is not rewritten by the word-end rule |
| VocxIntended.RadioEndsWithIjo | src/vocx.py:112 | Under the corrected rules the fragment stage turns "radio" into "radijo" |
| VocxIntended.IntendedConvertRadio | src/vocx.py:39-68 | The corrected converter turns "radio" into "radijyo" |
| Text.SplitOn | src/window.py:373 | `split(c)` gives one part more than there are separators, none holding the separator |
| Text.SplitOnJoin | src/window.py:373 | Joining the parts of `split(c)` with the separator gives the text back |
| Text.SplitOnFirst | src/pipervoice.py:74 | The first part of `split(c)` is the text up to the first separator, or the whole text |
| Text.SplitOnConcat | src/window.py:378 | Splitting "a" + c + "b" splits both sides independently |
| Text.SplitOnCons | src/window.py:378 | A leading separator starts a new empty part; any other leading character joins the first part |
| Text.Words | src/vocx.py:41 | `split()` yields only non-empty, whitespace-free words |
| Text.WordsOfWord | src/vocx.py:41 | A non-empty text without whitespace is one word: `split()` never cuts a word |
| Text.WordsSplitAtSpace | src/vocx.py:41 | Every whitespace character separates: the words of "a" + space + "b" are the words of a followed by those of b |
| Text.WordsOfJoin | src/vocx.py:47 | Splitting words joined by single spaces gives the same words back |
| Text.WordsConcat | src/vocx.py:41 | The words of a text hold exactly its non-whitespace characters, in order |
| Text.Strip | src/window.py:374 | `strip()` gives a piece of the text with no whitespace at either end and the same non-whitespace characters |
| Text.StripPadded | src/window.py:395 | Whitespace padding around a trimmed word is removed exactly |
| Text.Lower | src/vocx.py:43 | `lower()` keeps the length and leaves no capital; an ASCII capital becomes its small letter, the Kelvin sign becomes 'k', every other character is kept |
| Text.LowerIdempotent | src/vocx.py:43 | Lower-casing twice is lower-casing once |
| Text.Capitalize | src/pipervoice.py:68 | `capitalize()` keeps the length, turns a small first letter into its capital and keeps any other first character, leaves no capital after the first, and agrees with the text after lower-casing |
| Text.CapitalizeIdempotent | src/pipervoice.py:68 | Capitalizing twice is capitalizing once |
| Text.Find | src/window.py:401-402 | `find(c)` is -1 exactly when c is absent, otherwise the first index holding c |
| Text.ReplaceAll | src/vocx.py:51 | `str.replace`, used by the numeral stage and the literal fragment rules (src/vocx.py:58); Text.ReplaceAllFirstOccurrence and Text.ReplaceAllAbsent state when it fires and when it does not |
| Text.ReplaceAllAbsent | src/vocx.py:51 | `replace` changes nothing when the pattern does not occur |
| Text.ReplaceAllFirstOccurrence | src/vocx.py:58 | A literal rule that fires rewrites its first occurrence: the text before it is kept, the occurrence becomes the replacement, and the scan resumes after it, so every leftmost, non-overlapping occurrence is replaced |
| Text.ReplaceAllFiresAt | src/vocx.py:58 | The same scan from any position: the text up to the first occurrence is kept, that occurrence becomes the replacement, and the scan resumes after it |
| Text.ReplaceCharIsSplitJoin | src/vocx.py:51 | Replacing a one-character pattern is splitting at it and joining with the replacement |
| VoicesMd.HeaderLang | src/window.py:377-381 | A line names a language iff it is a header ("* " and "(`"); the language holds no '_' |
| VoicesMd.HeaderLangBetweenBackticks | src/window.py:378-381 | A header names the text between its first two backticks, cut at the first '_' |
| VoicesMd.ApplyHeader | src/window.py:377-382 | A header sets the language and forgets the voice; any other line changes nothing; records are untouched |
| VoicesMd.VoiceName | src/window.py:390 | `line.split('*')[1].strip()`: no surrounding whitespace and no '*'; VoicesMd.VoiceNameAfterStar gives its value |
| VoicesMd.VoiceNameAfterStar | src/window.py:390 | A voice line with one '*' names its stripped text after the '*' |
| VoicesMd.Quality | src/window.py:395 | `line.split('*')[1].split('-')[0].strip()`: no surrounding whitespace and no '-'; VoicesMd.QualityBeforeDash gives its value |
| VoicesMd.QualityBeforeDash | src/window.py:395 | The quality is the stripped text between the '*' and the first '-' |
| VoicesMd.PartUrl | src/window.py:399-405 | A part yields at most one URL, only if it mentions "http", and the URL holds no ')' |
| VoicesMd.UrlBetweenParentheses | src/window.py:401-405 | A part "a(u)b" that mentions "http", with no parenthesis in a or u, yields exactly u |
| VoicesMd.ExtractUrls | src/window.py:396-405 | The URLs of a line hold no '[' and no ')' |
| VoicesMd.ExtractUrlsOnePart | src/window.py:396-405 | A line without '[' is one part: its URLs are that part's URL, if any |
| VoicesMd.ExtractUrlsCons | src/window.py:396-405 | A '['-free head before the first '[' gives its URL, if any, ahead of the URLs of the rest of the line |
| VoicesMd.DropJsonSuffix | src/window.py:406-407 | `url[:-5]` when the URL ends in ".json": the result is a prefix of the URL, and is the URL itself or the URL without ".json" |
| VoicesMd.DropJsonSuffixInverse | src/window.py:406-407 | A config URL loses exactly one trailing ".json" and is otherwise kept |
| VoicesMd.Record | src/window.py:411-417 | A record is downloadable and its id starts with the language code and '-' |
| VoicesMd.QualityStep | src/window.py:394-417 | A quality line appends at most one record under the code; it fails exactly when the code runs as written and the line has fewer than two URLs, and the corrected reading then leaves the state unchanged |
| VoicesMd.Step | src/window.py:376-417 | One line appends at most one record, only under the wanted language; the corrected reading never fails |
| VoicesMd.Run | src/window.py:373-417 | The loop only ever appends records; the corrected reading never fails |
| VoicesMd.RunKeepsIdsUnder | src/window.py:412 | Every record the loop appends has an id that starts with the code and '-' |
| VoicesMd.StripAllTrimmed | src/window.py:373-374 | Lines without surrounding whitespace come through the per-line strip unchanged |
| VoicesMd.ParseLines | src/window.py:369-420 | Fails exactly when the loop fails, with its error; otherwise gives the loop's records, or the placeholder alone when the loop found none. The result is never empty, the corrected reading never fails, and every downloadable id starts with the code and '-' |
| VoicesMd.ParseVoicesMd | src/window.py:367-420 | The same, for the loop over the whole document split at newlines and stripped |
| VoicesMd.HeaderResets | src/window.py:377-382 | A header sets the language and forgets the voice, whatever language is wanted, and yields no record |
| VoicesMd.OtherLanguageLineIgnored | src/window.py:385-386 | A non-header line under another language leaves the state unchanged |
| VoicesMd.VoiceLineSetsVoice | src/window.py:389-390 | Under the wanted language a voice line sets the current voice and yields no record |
| VoicesMd.QualityLineRecord | src/window.py:394-417 | A quality line with two URLs under a named voice appends exactly the record "{code}-{voice}-{quality}", "{voice} ({quality})", with the first URL and the second without ".json" |
| VoicesMd.ShortQualityLine | src/window.py:406-410 | A quality line with fewer than two URLs fails as written and is skipped when corrected |
| VoicesMd.QualityLineNeedsVoice | src/window.py:394 | A quality line before any voice adds nothing |
| VoicesMd.StepAgreesWhenOk | src/window.py:406-410 | Where the as-written step succeeds, the corrected step gives the same result |
| VoicesMd.OtherLanguageStep | src/window.py:377-386 | A line whose header, if any, names another language keeps a foreign state recordless and foreign |
| VoicesMd.RunCons | src/window.py:373 | Reading a line list is one step on the first line, then the rest; a failure stops the loop |
| VoicesMd.RunAppend | src/window.py:373 | Lines are read strictly in order: reading a + b is reading a, then b from where a left off |
| VoicesMd.RunAgreesWhenOk | src/window.py:373-417 | Whenever the as-written parse gets through, the corrected parse gives the same state |
| VoicesMd.OtherLanguagesContributeNothing | src/window.py:384-386 | Lines with no header for the wanted language add no record |
| VoicesMd.NoHeaderGivesDefault | src/window.py:420 | A document without a header for the wanted language yields exactly the placeholder "{code}_default", "Default Voice" |
| VoicesDocument.HeaderLineLang | src/window.py:376-381 | "* {name} (`{lang}_{region}`, {native})" is a header naming lang |
| VoicesDocument.HeaderLineRead | src/window.py:374-381 | Such a header is a single trimmed line naming lang |
| VoicesDocument.VoiceLineName | src/window.py:389-390 | "* {voice}" names the voice |
| VoicesDocument.VoiceLineRead | src/window.py:388-390 | "* {voice}" is a single trimmed voice line naming the voice |
| VoicesDocument.QualityLineUrls | src/window.py:397-405 | "* {quality} - [[model]({m})] [[config]({c})]" yields the URLs m and c, in that order |
| VoicesDocument.QualityLineQuality | src/window.py:395 | That line's quality is the quality |
| VoicesDocument.QualityLineKind | src/window.py:394 | That line is a quality line and not a header |
| VoicesDocument.QualityLineRead | src/window.py:393-405 | That line is a single trimmed quality line with that quality and both URLs |
| VoicesDocument.ModelOnlyLineUrls | src/window.py:397-405 | A quality line with only the model link yields the single URL m |
| VoicesDocument.ModelOnlyLineKind | src/window.py:394 | That line is a trimmed quality line and not a header |
| VoicesDocument.ThreeLines | src/window.py:373-374 | Three trimmed newline-free lines joined by newlines are read back as those three lines |
| VoicesDocument.RunThree | src/window.py:373 | Three lines are three steps |
| VoicesDocument.OneVoiceRun | src/window.py:373-417 | A header of the code, a voice line and a quality line with two URLs give state (code, voice) and exactly one record |
| VoicesDocument.ModelOnlyRun | src/window.py:406-410 | With a model-only quality line the as-written loop fails on that line, and the corrected loop ends with no record |
| VoicesDocument.ParseOneVoiceDocument | src/window.py:367-420 | A one-voice document parses, in both readings, to exactly one record: "{lang}-{voice}-{quality}", "{voice} ({quality})", the model URL and the config URL without ".json" |
| VoicesDocument.ParseModelOnlyDocument | src/window.py:406-420 | The same document without the config link fails as written and yields the placeholder when corrected |
| PiperVoice.VoiceName | src/pipervoice.py:62-69 | Fails iff, as written, the id has exactly one '-'; an id without '-' is its own name; with two or more dashes the name ends in ')' |
| PiperVoice.NameOfVoiceId | src/pipervoice.py:65-68 | "{lang}-{voice}-{quality}…" is named "{Voice} ({quality})" in both readings; parts after the third are ignored |
| PiperVoice.VoiceIdParts | src/pipervoice.py:65 | Splitting such an id at '-' gives lang, voice and quality first |
| PiperVoice.TwoPartId | src/pipervoice.py:67-68 | "{lang}-{voice}" fails with an index error as written and is named by itself when corrected |
| PiperVoice.KerstinExample | src/pipervoice.py:64-68 | "de_DE-kerstin-low" is named "Kerstin (low)" |
| PiperVoice.LangDir | src/pipervoice.py:74 | The language directory is the id up to its first '-': a dash-free prefix followed by '-' or the end |
| PiperVoice.LangDirOfPrefix | src/pipervoice.py:74 | For a dash-free lang, the language directory of "{lang}-…" is lang |
| PiperVoice.DownloadVoice | src/pipervoice.py:71-84 | A download goes to the directory os.path.join({lang dir}, {id}), where the lang dir is the id up to its first '-'; the two files in it are exactly the required files |
| PiperVoice.DownloadDirOfVoiceId | src/pipervoice.py:74-75 | The download directory of "{lang}-{voice}-{quality}…" is {lang}/{id} |
| PiperVoice.IsValidVoice | src/pipervoice.py:54-60 | `_is_valid_voice`: both required files are present; PiperVoice.ValidIff states it per file |
| PiperVoice.ValidIff | src/pipervoice.py:54-60 | A voice directory is valid iff it holds "{id}.onnx" and "{id}.onnx.json" |
| PiperVoice.ModelAloneInvalid | src/pipervoice.py:56-60 | A directory without the config file is not valid |
| PiperVoice.DownloadIsValid | src/pipervoice.py:78-82 | After a download the directory is valid, whatever else it holds |
| PiperVoice.FileNamesDistinct | src/pipervoice.py:56-59 | The model and config names differ, and each determines its id |
| PiperVoice.ParsedVoicesDownloadUnderLang | src/pipervoice.py:74-75 | Every record the `VOICES.md` reader returns for a dash-free code downloads into that code's directory |

## Left out

- File-system work is left out: listing installed voices, the Esperanto
  voice directory `/app/share/piper/eo`, `os.makedirs` and `os.path.exists`
  (`src/pipervoice.py:17-52`). Directory contents are a parameter (a set of
  file names). A path is the list of arguments given to `os.path.join`.
- HTTP downloads, progress callbacks and threads are left out
  (`src/pipervoice.py:86-93` and the window code): I/O and concurrency.
- Fetching `VOICES.md`, its cache and the GUI around the reader are left
  out: network and GTK code. The reader takes the document text as input.
- `json.loads` of the rule document is left out. The model starts from the
  decoded tables, with the backspace that the non-raw string produces
  written out.
- The regex engine is left out beyond the two shapes the rule table uses:
  '^' at the start and backslash-'b' at the end. Any other pattern is
  reported as `UnsupportedRegex` instead of being compiled.
- Vocx.CompileFragment: rejects, as `UnsupportedRegex`, a regex fragment
  whose replacement contains a backslash. `ReplacementRule` at
  `src/vocx.py:5-11` compiles only the pattern and accepts any
  replacement; `re.sub` reads the replacement as a template only when the
  rule is applied. Template escapes and group references are not modelled.
  No built-in fragment has a backslash in its replacement.
- PiperVoice.DownloadVoice: the directory is the `os.path.join` argument
  list [lang dir, id] of `src/pipervoice.py:75`. `os.path.join` starts over
  at an absolute component, so an id beginning with '/' would land outside
  the models directory; absolute ids are not modelled. No id the
  `VOICES.md` reader builds starts with '/'.
- `print` calls are left out: output only.
- Text.Lower: covers ASCII A-Z and the Kelvin sign only. Python lowercases
  every Unicode capital. The override keys and the sample words are ASCII
  or Esperanto lowercase, for which the two agree.
- Text.Capitalize: upper-cases ASCII a-z only. Python title-cases any
  Unicode letter. Voice names in Piper ids are ASCII.
- Text.IsWordChar (the `\b` word characters): ASCII letters, digits, '_'
  and the Esperanto and Polish letters. Other non-ASCII letters count as
  non-word characters.
- VoicesMd.ParseVoicesMd: `current_voice` is only ever checked for
  truthiness. It is modelled as an optional string, where `None` and ""
  both mean "no voice".

## Findings

| source | as written | input that shows it | evidently intended | confidence | as-written member | corrected member |
|---|---|---|---|---|---|---|
| src/vocx.py:111-117 | The patterns "ide\\b" … "feyoyn\\b" sit in a non-raw triple-quoted string. The JSON therefore holds `\b`, which decodes to a backspace. The rules become literal replacements of text ending in a backspace and never fire. | The fragment stage leaves "radio" as it is | The rules match at the end of a word, so the fragment stage turns "radio" into "radijo" | not executed; high | Vocx.RadioKeepsFinalIo | VocxIntended.RadioEndsWithIjo |
| src/vocx.py:50-51 | Numerals are replaced in dictionary order, so every digit is replaced before "10", "100", "1000" and "1000000" are tried | "100" becomes "ununulonulo" | Longest key first, so "100" becomes "tsent" | not executed; high | Vocx.HundredSpelledDigitByDigit | VocxIntended.HundredSpelledWhole |
| src/window.py:406-410 | `urls[1]` is read before the `len(urls) >= 2` guard. A quality line with fewer than two links raises `IndexError` and aborts the whole parse. | "* Italian (`it_IT`, Italiano)", "* paola", "* medium - [[model](https://m)]" | The line is skipped, and the document yields the placeholder | not executed; high | VoicesDocument.ParseModelOnlyDocument | VoicesMd.RunAgreesWhenOk |
| src/pipervoice.py:67-68 | The guard is `len(parts) > 1`, but the code reads `parts[2]` | "de_DE-kerstin" raises `IndexError` | Guard on more than two parts; a shorter id is shown as itself | not executed; medium | PiperVoice.TwoPartId | PiperVoice.NameOfVoiceId |

For the last two rows the model carries both readings in one definition,
selected by `corrected`. `ParseModelOnlyDocument` and `TwoPartId` state
the as-written failure and the corrected result side by side.
`RunAgreesWhenOk` shows that the corrected reader agrees with the code
wherever the code does not crash. `NameOfVoiceId` shows that the
corrected naming keeps the three-part behaviour.
