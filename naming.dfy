/** The default output file name chosen by `main` (lines 250-265): the
    sanitized title, with the language code appended unless the track is
    English. */
module Naming {
  import opened Wrappers
  import opened Strings
  import Sanitize
  import TrackSelection

  /** `language_code.split("-")[0].lower() == "en"`. */
  predicate IsEnglish(languageCode: string) {
    LowerAscii(Split(languageCode, '-')[0]) == "en"
  }

  /** `e` and `n` lower-cased: only their two letter cases. */
  lemma LowerCharEn(c: char)
    ensures LowerChar(c) == 'e' <==> c == 'e' || c == 'E'
    ensures LowerChar(c) == 'n' <==> c == 'n' || c == 'N'
  {
  }

  /** `is_english` is not a prefix test: it holds exactly when the code is
      `en` (in any letter case), alone or followed by `-`. */
  lemma IsEnglishIff(code: string)
    ensures IsEnglish(code) <==>
      && |code| >= 2
      && (code[0] == 'e' || code[0] == 'E')
      && (code[1] == 'n' || code[1] == 'N')
      && (|code| == 2 || code[2] == '-')
  {
    SplitFirstField(code, '-');
    var first := Split(code, '-')[0];
    if |code| > 1 {
      LowerCharEn(code[0]);
      LowerCharEn(code[1]);
    }
    if IsEnglish(code) {
      assert |first| == 2;
      assert LowerAscii(first)[0] == 'e' && LowerAscii(first)[1] == 'n';
      assert first[0] == code[0] && first[1] == code[1];
    }
    if && |code| >= 2
       && (code[0] == 'e' || code[0] == 'E')
       && (code[1] == 'n' || code[1] == 'N')
       && (|code| == 2 || code[2] == '-')
    {
      assert forall i :: 0 <= i < |first| ==> first[i] == code[i];
      assert |first| == 2;
      assert LowerAscii(first) == "en";
    }
  }

  /** `<safe>.txt` for an English track, `<safe>_<code>.txt` otherwise, the
      code written exactly as the track gives it. */
  function OutputName(safeTitle: string, languageCode: string): (r: string)
    ensures |r| >= |safeTitle| + 4 && r[|r| - 4..] == ".txt"
    ensures r[..|safeTitle|] == safeTitle
    ensures IsEnglish(languageCode) <==> |r| == |safeTitle| + 4
    ensures !IsEnglish(languageCode) ==> r[|safeTitle|] == '_' && r[|safeTitle| + 1..|r| - 4] == languageCode
  {
    if IsEnglish(languageCode) then safeTitle + ".txt"
    else safeTitle + "_" + languageCode + ".txt"
  }

  /** For one title, two codes give the same file name exactly when they are
      equal or both English. */
  lemma OutputNameCollision(safeTitle: string, code1: string, code2: string)
    ensures OutputName(safeTitle, code1) == OutputName(safeTitle, code2)
      <==> code1 == code2 || (IsEnglish(code1) && IsEnglish(code2))
  {
    var n1, n2 := OutputName(safeTitle, code1), OutputName(safeTitle, code2);
    if n1 == n2 && !IsEnglish(code1) && !IsEnglish(code2) {
      assert code1 == n1[|safeTitle| + 1..|n1| - 4];
    }
  }

  /** The directory the default name is placed in. */
  const TranscriptsDir: string := "transcripts"

  /** The path `main` writes to: the `--output` argument when it is given and
      non-empty, otherwise `transcripts/` followed by the name derived from
      the raw title and the track's language code. */
  function OutputPath(output: Option<string>, rawTitle: string, languageCode: string): (r: string)
    ensures output.Some? && output.value != [] ==> r == output.value
  {
    if output.Some? && output.value != [] then output.value
    else TranscriptsDir + "/" + OutputName(Sanitize.SanitizeFilename(rawTitle), languageCode)
  }

  /** A name built from a safe title contains `/` only when the track is
      not English and its code, used verbatim, has one. */
  lemma OutputNameSeparator(safeTitle: string, languageCode: string)
    requires Sanitize.IsSafeName(safeTitle)
    ensures '/' in OutputName(safeTitle, languageCode) <==> !IsEnglish(languageCode) && '/' in languageCode
  {
    assert '/' !in safeTitle by { assert !Sanitize.IsSafeChar('/'); }
    assert '/' !in ".txt" && '/' !in "_";
  }

  /** So the default path names a file directly inside `transcripts/`
      unless the track is not English and its code contains a `/`. */
  lemma DefaultPathStaysInDirectory(rawTitle: string, languageCode: string)
    ensures var r := OutputPath(None, rawTitle, languageCode);
      '/' !in r[|TranscriptsDir| + 1..] <==> IsEnglish(languageCode) || '/' !in languageCode
  {
    var safe := Sanitize.SanitizeFilename(rawTitle);
    OutputNameSeparator(safe, languageCode);
    var name := OutputName(safe, languageCode);
    assert (TranscriptsDir + "/" + name)[|TranscriptsDir| + 1..] == name;
  }

  /** Every code in the picker's English list is English for naming. */
  lemma EnglishCodesAreEnglish()
    ensures forall code :: code in TrackSelection.EnglishCodes ==> IsEnglish(code)
  {
    forall code | code in TrackSelection.EnglishCodes ensures IsEnglish(code) {
      IsEnglishIff(code);
    }
  }

  /** The converse fails: `en-NZ` names a file as English but is not in the
      picker's English list, and `eng` is not English although it starts
      with `en`. */
  lemma EnglishIsNotAPrefixTest()
    ensures IsEnglish("en-NZ") && "en-NZ" !in TrackSelection.EnglishCodes
    ensures IsEnglish("EN") && !IsEnglish("eng")
  {
    IsEnglishIff("en-NZ");
    IsEnglishIff("EN");
    IsEnglishIff("eng");
  }

  /** A non-English track appends `_` and its code to the safe title. */
  lemma BosnianNameExample()
    ensures OutputName("Neka_Bosnian_Video", "bs") == "Neka_Bosnian_Video_bs.txt"
  {
    IsEnglishIff("bs");
  }

  /** The same name, from the raw title of the Bosnian track. */
  lemma BosnianTitleExample()
    ensures OutputName(Sanitize.SanitizeFilename("Neka Bosnian Video"), "bs") == "Neka_Bosnian_Video_bs.txt"
  {
    Sanitize.BosnianExample();
    BosnianNameExample();
  }

  /** The default path of an English track is the sanitized title with
      `.txt`, inside `transcripts/`. */
  lemma EnglishDefaultPath(rawTitle: string, safeTitle: string, languageCode: string)
    requires Sanitize.SanitizeFilename(rawTitle) == safeTitle && IsEnglish(languageCode)
    ensures OutputName(safeTitle, languageCode) == safeTitle + ".txt"
    ensures OutputPath(None, rawTitle, languageCode) == TranscriptsDir + "/" + (safeTitle + ".txt")
  {
  }

  /** The literal file name of the English example. */
  lemma RickAstleyNamePiece()
    ensures "Rick_Astley_-_Never_Gonna_Give_You_Up" + ".txt" == "Rick_Astley_-_Never_Gonna_Give_You_Up.txt"
  {
  }

  /** The directory part of a default path. */
  lemma DirectoryPiece(name: string)
    ensures TranscriptsDir + "/" + name == "transcripts/" + name
  {
  }

  /** An English track adds only `.txt` to the sanitized title, and the
      default path places it in `transcripts/`. */
  lemma RickAstleyPathExample()
    ensures OutputName(Sanitize.SanitizeFilename("Rick Astley - Never Gonna Give You Up"), "en")
      == "Rick_Astley_-_Never_Gonna_Give_You_Up.txt"
    ensures OutputPath(None, "Rick Astley - Never Gonna Give You Up", "en")
      == "transcripts/" + "Rick_Astley_-_Never_Gonna_Give_You_Up.txt"
  {
    Sanitize.RickAstleyExample();
    IsEnglishIff("en");
    EnglishDefaultPath("Rick Astley - Never Gonna Give You Up", "Rick_Astley_-_Never_Gonna_Give_You_Up", "en");
    RickAstleyNamePiece();
    DirectoryPiece("Rick_Astley_-_Never_Gonna_Give_You_Up.txt");
  }
}
