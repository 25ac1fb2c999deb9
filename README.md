# YouTube transcript downloader: a verified model of its core

`youtube_transcript.py` is a command-line tool. It takes a YouTube URL,
extracts the video ID and chooses one caption track: the caller's preferred
languages first, then English (manually created before auto-generated),
then anything else. It writes that track's text, one line per non-blank
snippet with an optional `[MM:SS]` prefix, to a file. The default file name
is built from the sanitized video title and, when the track is not English,
its language code.

This project models the program's pure core and proves properties of it:

- `sanitize_filename`: module `Sanitize`, a function per stage.
- The English test and file name of `main`: module `Naming`.
- `_pick_transcript` and `_ENGLISH_CODES`: module `TrackSelection`. It sits
  on a model of the three transcript-library lookups that it calls.
- `extract_video_id`: module `VideoId`. This is a method; its `for` loop
  tries the three patterns in order. Each `re.search` is a function that
  finds the leftmost match.
- `format_transcript`: module `Formatting`. This is a method whose `for`
  loop builds the lines; it is proved against the function `Lines`.

`Strings` restates the Python `str` operations that the core uses. These are
`isspace`, `strip`, `split`, `"\n".join`, ASCII `lower`, the `02d` format,
and a filter of characters. `Wrappers` holds `Option` and `Result`.

Facts about the code that the model follows:

- The sanitizer keeps `.` (stage 4, `[^\w\-_.]`).
- The sanitizer deletes an apostrophe rather than turning it into `_`, so
  `François's Talk!!` becomes `Francoiss_Talk`
  (`Sanitize.TransliterationExample`).
- The language code goes into the file name verbatim, not lower-cased.
- A track is English for naming when `split("-")[0].lower() == "en"`.
  This is not a case-insensitive test that the code starts with "en": `eng`
  is not English, `EN` and `en-NZ` are (`Naming.IsEnglishIff`).
- The picker's English step looks up exactly the seven `_ENGLISH_CODES`,
  so `en-NZ` is English for the file name but not for the picker
  (`Naming.EnglishIsNotAPrefixTest`).
- The library's lookups match language codes exactly, since they are
  dictionary keys, not case-insensitively.
- The help text of `--output` (line 206) says the default is
  `<video_id>_transcript.txt`. The code (lines 253-265) builds
  `transcripts/<safe title>.txt` or `transcripts/<safe title>_<code>.txt`
  instead, and the model follows the code (`Naming.OutputName`,
  `Naming.DefaultPathStaysInDirectory`).

## Model

| member | source | states |
|---|---|---|
| Sanitize.SanitizeFilename | youtube_transcript.py:67-85 | The name is always safe: non-empty, only ASCII letters, digits, `_`, `-` and `.`, no `__`, and no `_` at either end |
| Sanitize.FixedPointsAreSafeNames | youtube_transcript.py:67-85 | A string is left unchanged exactly when it is a safe name; so the possible results are exactly the safe names |
| Sanitize.SafeNameIsFixedPoint | youtube_transcript.py:74-85 | Every stage is the identity on a safe name |
| Sanitize.SanitizeIdempotent | youtube_transcript.py:67-85 | Sanitizing twice gives the same as sanitizing once |
| Sanitize.SanitizeKeepsSignificant | youtube_transcript.py:74-85 | After entity decoding and transliteration, the title's letters, digits, `-` and `.` all survive, in order, and only `_` is added; with none of them the name is `transcript` |
| Sanitize.AsciiTitleKeepsSignificant | youtube_transcript.py:79-85 | For an ASCII title without `&`, the name's characters other than `_` are exactly the title's letters, digits, `-` and `.` |
| Sanitize.NothingSurvivesGivesFallback | youtube_transcript.py:82-85 | An ASCII title of symbols, whitespace and `_` only (and no `&`) gives `transcript` |
| Sanitize.OnlySymbolsExample | youtube_transcript.py:85 | `!!!` gives `transcript` |
| Sanitize.StrippedKeepsSignificant | youtube_transcript.py:79-85 | After stages 1-5 and `strip("_")`, before the fallback, the characters other than `_` are exactly the decoded, transliterated title's letters, digits, `-` and `.`, in order |
| Sanitize.SanitizeWords | youtube_transcript.py:67-85 | Reference reading: words of letters, digits, `-` and `.` separated by single spaces give the same words separated by single `_` |
| Sanitize.CollapsedWords | youtube_transcript.py:74-84 | Stages 1-5 turn words separated by single spaces into the words separated by `_` |
| Sanitize.CollapsedAfterWord | youtube_transcript.py:74-84 | A word, a run of ASCII whitespace and a rest starting with a content character give the word, one `_` and what the rest gives |
| Sanitize.SpacedAfterWord | youtube_transcript.py:74-80 | Stages 1-3 on a word, an ASCII whitespace run and a rest give the word, one `_` and the rest's result |
| Sanitize.SpacedAfterSpace | youtube_transcript.py:74-80 | Stages 1-3 turn a leading ASCII whitespace run before a content character into one `_` |
| Sanitize.CollapsedAfterSpace | youtube_transcript.py:74-84 | Stages 1-5 turn a leading ASCII whitespace run before a content character into one `_` |
| Sanitize.CollapsedAfterPlainPrefix | youtube_transcript.py:74-84 | A prefix without `&`, whose transliteration holds no whitespace and no `_`, contributes exactly its safe characters, and the rest is processed as if alone |
| Sanitize.CollapsedAfterWordPiece | youtube_transcript.py:74-84 | A word at the front of a title is kept as it is |
| Sanitize.CollapsedAfterDropped | youtube_transcript.py:74-84 | ASCII symbols that are not `&`, whitespace or safe characters vanish from the front of a title |
| Sanitize.CollapsedAfterTransliterated | youtube_transcript.py:74-84 | A character whose NFKD form is one content character is replaced by it |
| Sanitize.SecondWordCollapsed | youtube_transcript.py:74-84 | A word, a space, a word and trailing symbols give the two words joined by `_` |
| Sanitize.TransliteratedCollapsed | youtube_transcript.py:74-84 | Stages 1-5 on a title shaped like `François's Talk!!` |
| Sanitize.TransliteratedTitle | youtube_transcript.py:67-85 | A title shaped like `François's Talk!!` keeps its words, transliterates the accented letter, drops the symbols and joins the halves with `_` |
| Sanitize.AmpersandDecoded | youtube_transcript.py:75 | `<word> &amp; <word>` decodes to `<word> & <word>` |
| Sanitize.AmpersandSpaced | youtube_transcript.py:77-80 | Stages 2-3 turn `<word> & <word>` into `<word>_&_<word>` |
| Sanitize.AmpersandFiltered | youtube_transcript.py:82 | Stage 4 drops the `&` of `<word>_&_<word>` |
| Sanitize.AmpersandCollapsed | youtube_transcript.py:74-84 | Stages 1-5 turn `<word> &amp; <word>` into `<word>_<word>` |
| Sanitize.AmpersandBetweenWords | youtube_transcript.py:67-85 | `&amp;` between two words disappears and the words are joined by one `_` |
| Sanitize.EightWords | youtube_transcript.py:67-85 | Eight words separated by spaces give the eight words separated by `_` |
| Sanitize.SpaceExample | youtube_transcript.py:80 | `a b` gives `a_b` |
| Sanitize.RickAstleyExample | youtube_transcript.py:67-85 | `Rick Astley - Never Gonna Give You Up` gives `Rick_Astley_-_Never_Gonna_Give_You_Up` |
| Sanitize.EntityExample | youtube_transcript.py:75-85 | `Tom &amp; Jerry` gives `Tom_Jerry` |
| Sanitize.ThreeWords | youtube_transcript.py:67-85 | Three words separated by spaces give the three words separated by `_` |
| Sanitize.BosnianExample | youtube_transcript.py:67-85 | `Neka Bosnian Video` gives `Neka_Bosnian_Video` |
| Sanitize.TransliterationExample | youtube_transcript.py:67-85 | `François's Talk!!` gives `Francoiss_Talk` |
| Sanitize.WordIsSafeName | youtube_transcript.py:82-85 | A word of content characters is a safe name |
| Sanitize.WordHasNoSpace | youtube_transcript.py:80 | A word of content characters holds no whitespace |
| Sanitize.SignificantIsNotSpace | youtube_transcript.py:80-82 | A letter, digit, `-` or `.` is not whitespace |
| Sanitize.StagesKeepFirst | youtube_transcript.py:74-82 | A title starting with a content character still starts with it after each of stages 1-4 |
| Sanitize.AsciiPrefix | youtube_transcript.py:74-78 | Stages 1-2 copy an ASCII prefix without `&` unchanged |
| Sanitize.CollapsedOfSafeName | youtube_transcript.py:74-84 | Stages 1-5 leave a safe name unchanged |
| Sanitize.ReplaceAll | youtube_transcript.py:75 | `str.replace` leaves a string without the pattern's first character unchanged |
| Sanitize.DecodeEntities | youtube_transcript.py:75 | The four entity replacements change nothing in a title without `&` |
| Sanitize.ReplaceAllChars | youtube_transcript.py:75 | `str.replace` adds no character but those of the replacement |
| Sanitize.ReplaceAllPrefix | youtube_transcript.py:75 | A prefix without the pattern's first character is copied and the replacing goes on after it |
| Sanitize.ReplaceAllSplit | youtube_transcript.py:75 | An occurrence of the pattern after such a prefix becomes the replacement, and the replacing goes on after it |
| Sanitize.ReplaceAllSkip | youtube_transcript.py:75 | A piece that starts like the pattern but differs in its second character is copied unchanged |
| Sanitize.PassOver | youtube_transcript.py:75 | One replacement pass for an entity over an entity or an ordinary character in front: replaced when it is the pattern, copied otherwise |
| Sanitize.DecodeEntitiesChars | youtube_transcript.py:75 | Stage 1 adds no character but `&`, `<`, `>` and `'` |
| Sanitize.DecodePrefix | youtube_transcript.py:75 | Stage 1 copies a prefix without `&` unchanged |
| Sanitize.DecodeEntity | youtube_transcript.py:75 | `&lt;`, `&gt;` and `&#39;` each become their character, and decoding goes on after it |
| Sanitize.AmpersandSurvives | youtube_transcript.py:75 | An `&` that does not begin an entity survives the `&lt;`, `&gt;` and `&#39;` passes |
| Sanitize.DecodeAmpersand | youtube_transcript.py:75 | `&amp;` becomes `&`, which is decoded again only when it then begins `lt;`, `gt;` or `#39;` |
| Sanitize.DoubleDecodingExample | youtube_transcript.py:75 | The replacements run in sequence, so `&amp;lt;` gives `<` |
| Sanitize.AsciiOf | youtube_transcript.py:77-78 | NFKD plus dropping non-ASCII yields only ASCII and keeps an ASCII character as it is; the fixed-width spaces become a plain space |
| Sanitize.ToAscii | youtube_transcript.py:77-78 | The transliterated title is pure ASCII, and an ASCII title is unchanged |
| Sanitize.UnderscoreWhitespaceKeeps | youtube_transcript.py:80 | After `\s+` becomes `_` no whitespace is left, nothing but `_` is added, and the characters other than whitespace and `_` are kept in order |
| Sanitize.UnderscoreWhitespaceIdentity | youtube_transcript.py:80 | A title without whitespace is unchanged by stage 3 |
| Sanitize.UnderscoreWhitespacePrefix | youtube_transcript.py:80 | Stage 3 copies a prefix without whitespace unchanged |
| Sanitize.UnderscoreWhitespaceRun | youtube_transcript.py:80 | A whitespace run followed by something other than whitespace becomes exactly one `_` |
| Sanitize.UnderscoreWhitespaceSplit | youtube_transcript.py:80 | The splitting law of stage 3: between text without whitespace and text that does not start with whitespace, a whitespace run becomes exactly one `_` |
| Sanitize.CollapseUnderscores | youtube_transcript.py:84 | After `_+` becomes `_` there is no `__`; the characters other than `_` and the first character are unchanged; a string without `__` is unchanged |
| Sanitize.CollapseCons | youtube_transcript.py:84 | A character other than `_` in front is kept |
| Sanitize.CollapsePrefix | youtube_transcript.py:84 | Stage 5 copies a prefix without `_` unchanged |
| Sanitize.CollapseRun | youtube_transcript.py:84 | A run of `_` followed by something other than `_` becomes exactly one `_` |
| Sanitize.CollapseSplit | youtube_transcript.py:84 | The splitting law of stage 5: between text without `_` and text that does not start with `_`, a run of `_` becomes exactly one `_` |
| Sanitize.NoDoubleUnderscoreCons | youtube_transcript.py:84 | How `__` can occur in a string with a given first character |
| Sanitize.SliceKeepsNoDoubleUnderscore | youtube_transcript.py:85 | A slice of a string without `__` has none either |
| Sanitize.Collapsed | youtube_transcript.py:74-84 | Before the final strip, the title holds only safe characters and no `__` |
| Sanitize.StripUnderscoresKeeps | youtube_transcript.py:85 | `strip("_")` adds no character and keeps the absence of `__` |
| Sanitize.FallbackIsSafeName | youtube_transcript.py:85 | `transcript` is itself a safe name |
| Strings.Strip | youtube_transcript.py:85 | `strip` leaves no droppable character at either end, is the identity when both ends are kept, and is empty exactly when every character is droppable |
| Strings.StripIsSlice | youtube_transcript.py:85 | What `strip` leaves is one slice of the input; only droppable characters lie outside it |
| Strings.FilterStrip | youtube_transcript.py:85 | Stripping characters that a filter would drop changes nothing after the filter |
| Strings.IsSpace | youtube_transcript.py:80 | What `\s` and `str.strip()` treat as whitespace: ASCII 0x09-0x0D and 0x1C-0x20 and the Unicode separators and spaces (also used at lines 176 and 179) |
| Strings.Filter | youtube_transcript.py:82 | Deleting the characters outside a class (`[^\w\-_.]` becomes empty); its content laws are `FilterSound`, `FilterAll`, `FilterEmpty` and `FilterConcat` |
| Strings.FilterSound | youtube_transcript.py:82 | Filtering keeps only characters of the input that are in the class |
| Strings.FilterAll | youtube_transcript.py:82 | Filtering a string whose characters are all in the class changes nothing |
| Strings.FilterEmpty | youtube_transcript.py:82 | Filtering leaves nothing exactly when no character is in the class |
| Strings.FilterConcat | youtube_transcript.py:82 | Filtering a concatenation filters each part |
| Strings.FilterFilter | youtube_transcript.py:79-84 | Filtering twice is filtering by both classes |
| Strings.FlatMapConcat | youtube_transcript.py:77-78 | Per-character transliteration of a concatenation transliterates each part |
| Strings.StripKeepsCharacters | youtube_transcript.py:85 | `strip` adds no character |
| Naming.IsEnglishIff | youtube_transcript.py:258 | `is_english` holds exactly when the code is `en` in any letter case, alone or followed by `-` |
| Naming.IsEnglish | youtube_transcript.py:258 | `is_english`: the first `-`-separated field of the code, lower-cased, is `en`; characterised by `IsEnglishIff` |
| Strings.LowerAscii | youtube_transcript.py:258 | `lower()`: the same length, each ASCII capital replaced by its small letter, every other character kept |
| Naming.OutputName | youtube_transcript.py:262-265 | The name ends in `.txt` and starts with the safe title; it adds nothing else exactly when the track is English; otherwise `_` and the verbatim code come between |
| Naming.OutputNameCollision | youtube_transcript.py:258-265 | For one title, two codes give the same name exactly when they are equal or both English |
| Naming.OutputPath | youtube_transcript.py:250-251 | A non-empty `--output` is used as given |
| Naming.OutputNameSeparator | youtube_transcript.py:262-265 | A name built from a safe title contains `/` exactly when the track is not English and its code contains `/` |
| Naming.DefaultPathStaysInDirectory | youtube_transcript.py:253-265 | The default path names a file directly inside `transcripts/` exactly when the track is English or its code has no `/` |
| Naming.EnglishCodesAreEnglish | youtube_transcript.py:42 | Every `_ENGLISH_CODES` entry is English for naming (lines 42 and 258 agree in this direction) |
| TrackSelection.EnglishCodes | youtube_transcript.py:42 | The seven English codes in the order they are tried; `EnglishCodesAreEnglish` and `EnglishIsNotAPrefixTest` relate them to line 258 |
| Naming.EnglishIsNotAPrefixTest | youtube_transcript.py:258 | `en-NZ` and `EN` are English and `eng` is not; `en-NZ` is not in `_ENGLISH_CODES` (line 42) |
| Naming.BosnianNameExample | youtube_transcript.py:258-265 | The safe title `Neka_Bosnian_Video` with the `bs` track is named `Neka_Bosnian_Video_bs.txt` |
| Naming.BosnianTitleExample | youtube_transcript.py:253-265 | The raw title `Neka Bosnian Video` with the `bs` track is named `Neka_Bosnian_Video_bs.txt` |
| Naming.RickAstleyPathExample | youtube_transcript.py:253-265 | The raw title `Rick Astley - Never Gonna Give You Up` with the `en` track is named `Rick_Astley_-_Never_Gonna_Give_You_Up.txt`, and the default path is that name inside `transcripts/` |
| TrackSelection.Lookup | youtube_transcript.py:95-115 | One table lookup returns a track of that kind with that code, and finds nothing exactly when there is none |
| TrackSelection.LookupKinds | youtube_transcript.py:95-115 | For one code, the tables are tried in order: the result has the code and comes from the first table that has it |
| TrackSelection.FindIn | youtube_transcript.py:95-115 | The library search returns a listed track; it finds nothing exactly when no code is available; otherwise the earliest available code wins, then the earliest kind |
| TrackSelection.FindTranscript | youtube_transcript.py:95 | `find_transcript`: a listed track of the earliest code that has any track; nothing exactly when no code has one; a generated track only when its code has no manual one |
| TrackSelection.FindManuallyCreatedTranscript | youtube_transcript.py:101 | `find_manually_created_transcript`: a listed manual track of the earliest code that has one; nothing exactly when no code has one |
| TrackSelection.FindGeneratedTranscript | youtube_transcript.py:105 | `find_generated_transcript`: a listed generated track of the earliest code that has one; nothing exactly when no code has one |
| TrackSelection.AllCodes | youtube_transcript.py:90 | `all_codes` lists the tracks' codes in order |
| TrackSelection.First | youtube_transcript.py:119 | `next(iter(...))` is the first track, or nothing for an empty list |
| TrackSelection.PickTranscript | youtube_transcript.py:88-119 | A track is chosen exactly when the list is non-empty, and it is one of the listed tracks |
| TrackSelection.PickHonoursPreference | youtube_transcript.py:93-97 | If preferred code `k` is the first that has a track, that code is chosen, manually created when possible; preference order beats manual over generated |
| TrackSelection.PreferenceStepFails | youtube_transcript.py:93-97 | With no preferred code available, the preference step finds nothing |
| TrackSelection.PickPrefersManualEnglish | youtube_transcript.py:99-103 | With no preference matching, a manual `_ENGLISH_CODES` track is chosen whenever one exists |
| TrackSelection.ManualEnglishStepFails | youtube_transcript.py:100-103 | Without a manual `_ENGLISH_CODES` track, the manual English step finds nothing |
| TrackSelection.PickFallsBackToGeneratedEnglish | youtube_transcript.py:104-107 | Otherwise a generated `_ENGLISH_CODES` track is chosen whenever one exists |
| TrackSelection.EnglishStepsFail | youtube_transcript.py:99-107 | Without any `_ENGLISH_CODES` track, both English steps find nothing |
| TrackSelection.PickNonEnglishOnlyWithoutEnglish | youtube_transcript.py:92-117 | A track outside `_ENGLISH_CODES` is chosen only through a preference, or when no track has an `_ENGLISH_CODES` code |
| TrackSelection.PickPrefersManualFallback | youtube_transcript.py:109-113 | With no preference and no English track, a manual track is chosen whenever one exists |
| TrackSelection.FirstTrackFallbackUnreachable | youtube_transcript.py:109-119 | For a non-empty list the search over all codes always succeeds, so `next(iter(...))` is never reached |
| TrackSelection.AvailableKinds | youtube_transcript.py:95-115 | Availability over the kind lists used by `find_transcript`, `find_manually_created_transcript` and `find_generated_transcript` |
| TrackSelection.PreferenceExample | youtube_transcript.py:93-97 | Preferences `fr, es` with only a generated `es` track give that track |
| TrackSelection.PreferenceOrderBeatsManualExample | youtube_transcript.py:93-97 | An earlier preferred code's generated track beats a later code's manual one |
| TrackSelection.EnglishFirstExample | youtube_transcript.py:99-107 | With no preferences, a generated English track beats a manual German one |
| TrackSelection.UnlistedEnglishExample | youtube_transcript.py:42 | A generated `en-NZ` track loses to a manual German one |
| VideoId.ExtractVideoId | youtube_transcript.py:27-38 | The result is an 11-character ID from the first pattern, in list order, that matches; the error is raised, with its message, exactly when no pattern matches |
| VideoId.MatchLead | youtube_transcript.py:30-32 | A match at one position yields a well-formed ID that stands in the URL right after the lead |
| VideoId.MatchLeads | youtube_transcript.py:30 | A group found by the alternatives `v=` or `/` at one position is a well-formed ID |
| VideoId.MatchLeadsFirst | youtube_transcript.py:30 | The alternatives are tried in order: no group exactly when no alternative matches, otherwise the first alternative that matches gives it |
| VideoId.NoLeadCharacterRejected | youtube_transcript.py:29-38 | A string without `/`, `v`, `y` and `e` matches no pattern |
| VideoId.Patterns | youtube_transcript.py:29-33 | The three patterns in list order: `v=` or `/` with a terminator; `youtu.be/`; `embed/` |
| VideoId.TerminatorAt | youtube_transcript.py:30 | `(?:[&?]|$)`: a `&` or `?`, the end of the URL, or a final newline |
| VideoId.MatchAt | youtube_transcript.py:30-32 | A match yields a well-formed ID |
| VideoId.SearchFrom | youtube_transcript.py:35 | A search result is a well-formed ID |
| VideoId.SearchFromLeftmost | youtube_transcript.py:35 | `re.search` fails exactly when no position matches; otherwise it returns the leftmost match |
| VideoId.Search | youtube_transcript.py:35-37 | `match.group(1)` is a well-formed ID |
| VideoId.SearchResultOccursInUrl | youtube_transcript.py:35-37 | The ID found is 11 consecutive characters of the URL |
| VideoId.NoMatchWithoutLead | youtube_transcript.py:30-32 | A pattern cannot match where its lead does not occur |
| VideoId.BareIdRejected | youtube_transcript.py:29-38 | No pattern matches a string shorter than 12 characters, a bare 11-character ID included, so the error is raised |
| VideoId.ShortUrlGivesId | youtube_transcript.py:30 | `youtu.be/<id>` gives `<id>` through the first pattern |
| VideoId.ShortUrlWithFragmentUsesSecondPattern | youtube_transcript.py:30-31 | In `youtu.be/<id>#t`, no terminator follows the ID, so the first pattern fails and the second supplies the ID |
| Formatting.FormatTranscript | youtube_transcript.py:166-189 | The loop's output is the lines of `Lines` joined by newlines |
| Formatting.Timestamp | youtube_transcript.py:183-186 | `[MM:SS]`: the minute field has exactly two digits below 100 minutes and no leading zero beyond that; two second digits; seconds below 60; `60 * minutes + seconds` is the start offset |
| Formatting.Lines | youtube_transcript.py:172-188 | One line per kept entry |
| Formatting.Kept | youtube_transcript.py:173-182 | The kept entries are never more than the entries; which entries they are is stated by `KeptAtKeptIndices` and `KeptIndicesAreTheNonBlankEntries` |
| Formatting.LinesAppend | youtube_transcript.py:173-188 | Each entry appends its line, unless its text is blank |
| Formatting.KeptIndicesAreTheNonBlankEntries | youtube_transcript.py:176-182 | The kept positions are strictly increasing; each is a non-blank entry; every non-blank entry is among them |
| Formatting.KeptAtKeptIndices | youtube_transcript.py:173-182 | The kept entries are the entries at the kept positions |
| Formatting.LinesFollowKeptEntries | youtube_transcript.py:173-188 | Line `k` is the formatted `k`-th non-blank entry, and there is one line per non-blank entry |
| Formatting.BlankIffStrippedEmpty | youtube_transcript.py:176-181 | An entry is skipped exactly when `text.strip()` is empty |
| Formatting.FormatLineShape | youtube_transcript.py:176-188 | A line holds the stripped, non-empty text, after the timestamp and a space when timestamps are on |
| Formatting.FormatLine | youtube_transcript.py:183-188 | The line for a kept entry: the timestamp, a space and the stripped text, or the stripped text alone; its shape is stated by `FormatLineShape` |
| Formatting.TimestampHasNoNewline | youtube_transcript.py:186 | A timestamp contains no newline |
| Formatting.LineHasNoNewline | youtube_transcript.py:176-188 | A line contains a newline only if its entry's text does |
| Formatting.ContentSplitsIntoLines | youtube_transcript.py:189 | If no text contains a newline, splitting the output on `\n` gives back exactly the lines; with no lines the output is empty |
| Strings.SplitJoin | youtube_transcript.py:189 | Joining parts without the separator and then splitting gives the parts back |
| Strings.Join | youtube_transcript.py:189 | `"\n".join`: the parts with the separator between; its laws are `JoinHead`, `JoinLast`, `JoinKeeps`, `JoinAppend` and `SplitJoin` |
| Strings.JoinAppend | youtube_transcript.py:189 | Joining two non-empty lists one after the other joins each, with the separator between |
| Strings.JoinHead | youtube_transcript.py:189 | A non-empty first part gives the joined string its first character |
| Strings.JoinLast | youtube_transcript.py:189 | A non-empty last part gives the joined string its last character |
| Strings.JoinKeeps | youtube_transcript.py:189 | A property of every character of the parts and the separator holds of the joined string |
| Strings.Split | youtube_transcript.py:258 | `split` returns at least one field, and no field contains the separator; which fields they are is stated by `SplitFirstField` and `JoinSplit` |
| Strings.SplitFirstField | youtube_transcript.py:258 | The first field is the longest prefix without the separator |
| Strings.JoinSplit | youtube_transcript.py:258 | Re-joining the fields with the separator gives back the string; with `SplitFirstField` this pins what the fields are |
| Strings.ZeroPad2 | youtube_transcript.py:186 | `02d`: at least two digits, exactly two below 100, no leading zero above that, and their value is the number |

## Left out

- Network access is not modelled. `fetch_video_title` (lines 45-64) is left
  out; `OutputPath` takes the raw title it would return as a parameter.
- `fetch_transcript` is left out: it probes library versions through
  reflection and talks to the network. The model takes the track list and
  the fetched entries as values.
- The transcript library is not part of this model. Its three lookups are
  restated in `TrackSelection.FindIn` as the program relies on them: for
  each code in order, for each kind in order, the first listed track of that
  kind and code. The library keys each kind by code, so it holds at most one
  track per code and kind. With duplicates, the model returns the first
  listed.
- Directory creation, writing the file, `print`, `sys.exit` and argument
  parsing (`save_transcript` and the rest of `main`) are left out as I/O.
  `Formatting.FormatTranscript` returns the content and `Naming.OutputPath`
  returns the path; the exit on a failed `extract_video_id` is the `Err`
  result.
- `Path` normalization of the `--output` argument is left out: the argument
  is returned as given.
- Entries are records of text and start time. The two ways the source reads
  them, attribute or dictionary, are one case in the model.
- Formatting.Entry: the start offset is a whole number of seconds, the floor
  of the library's floating-point value. This gives the same minutes and
  seconds, because `int(x // 60)` and `int(x % 60)` depend only on the
  floor for `x >= 0`. Negative offsets are not modelled.
- Sanitize.AsciiOf: NFKD followed by dropping non-ASCII is modelled exactly
  for ASCII, the Latin-1 Supplement block, the fixed-width spaces and the
  fullwidth ASCII forms. Every other non-ASCII character is dropped, so the
  model differs from Python there: Python keeps the base letter of, for
  example, `ā` (U+0101), where the model gives `transcript` for the title
  `ā`.
- Strings.LowerAscii: `lower` is modelled for ASCII only. No non-ASCII
  character lower-cases to `e` or `n`, so `Naming.IsEnglish` is unaffected.
- Naming.OutputPath: its ensures covers only the explicit `--output` case.
  The default case is stated by `Naming.DefaultPathStaysInDirectory` and
  `Naming.OutputName`.
- TrackSelection.PickTranscript: an empty list, where the source raises
  `StopIteration`, gives `None`. A `None` preference list and an empty one
  are the same case, as in `if preferred_languages:`.
