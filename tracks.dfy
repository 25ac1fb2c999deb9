/** `_pick_transcript`: the fallback cascade that chooses one transcript
    track, on top of the three lookups of the transcript library. */
module TrackSelection {
  import opened Wrappers

  /** One caption track: its language code and whether it was generated
      automatically (`false` for a manually created track). */
  datatype Track = Track(code: string, isGenerated: bool)

  /** `_ENGLISH_CODES`, in the order they are tried. */
  const EnglishCodes: seq<string> := ["en", "en-US", "en-GB", "en-CA", "en-AU", "en-IE", "en-IN"]

  /** Some track of the given kind carries `code`. */
  predicate HasTrack(tracks: seq<Track>, code: string, generated: bool) {
    exists t :: t in tracks && t.code == code && t.isGenerated == generated
  }

  /** Some track, of either kind, carries `code`. */
  predicate HasCode(tracks: seq<Track>, code: string) {
    exists t :: t in tracks && t.code == code
  }

  // The library keeps one table of manually created and one of generated
  // tracks, each keyed by language code. The functions below state the
  // semantics of its lookups that the cascade relies on; they are assumed,
  // not derived from the library's code.

  /** Looking `code` up in the table of one kind: the first such track in
      listing order, or `None`. */
  function Lookup(tracks: seq<Track>, code: string, generated: bool): (r: Option<Track>)
    ensures r.Some? ==> r.value in tracks && r.value.code == code && r.value.isGenerated == generated
    ensures r.None? <==> !HasTrack(tracks, code, generated)
  {
    if tracks == [] then None
    else if tracks[0].code == code && tracks[0].isGenerated == generated then Some(tracks[0])
    else
      assert forall t :: t in tracks ==> t == tracks[0] || t in tracks[1..];
      Lookup(tracks[1..], code, generated)
  }

  /** Some track of one of `kinds` carries `code`. */
  predicate Available(tracks: seq<Track>, code: string, kinds: seq<bool>) {
    exists k :: 0 <= k < |kinds| && HasTrack(tracks, code, kinds[k])
  }

  /** The tables of `kinds`, tried in order, for one code. */
  function LookupKinds(tracks: seq<Track>, code: string, kinds: seq<bool>): (r: Option<Track>)
    ensures r.Some? ==> r.value in tracks && r.value.code == code
    ensures r.None? <==> !Available(tracks, code, kinds)
    ensures r.Some? ==> exists k ::
              && 0 <= k < |kinds| && kinds[k] == r.value.isGenerated
              && forall j :: 0 <= j < k ==> !HasTrack(tracks, code, kinds[j])
  {
    if kinds == [] then None
    else
      match Lookup(tracks, code, kinds[0])
      case Some(t) => Some(t)
      case None =>
        var r := LookupKinds(tracks, code, kinds[1..]);
        assert forall k :: 0 <= k < |kinds| - 1 ==> kinds[1..][k] == kinds[k + 1];
        r
  }

  /** The library's search over `codes` and the tables of `kinds`: for each
      code in order, for each kind in order, the track found, or `None`
      (`NoTranscriptFound`) when no code has one. */
  function FindIn(tracks: seq<Track>, codes: seq<string>, kinds: seq<bool>): (r: Option<Track>)
    ensures r.Some? ==> r.value in tracks
    ensures r.None? <==> forall k :: 0 <= k < |codes| ==> !Available(tracks, codes[k], kinds)
    ensures r.Some? ==> exists k ::
              && 0 <= k < |codes| && codes[k] == r.value.code
              && forall j :: 0 <= j < k ==> !Available(tracks, codes[j], kinds)
    ensures r.Some? ==> exists k ::
              && 0 <= k < |kinds| && kinds[k] == r.value.isGenerated
              && forall j :: 0 <= j < k ==> !HasTrack(tracks, r.value.code, kinds[j])
  {
    if codes == [] then None
    else
      match LookupKinds(tracks, codes[0], kinds)
      case Some(t) => Some(t)
      case None =>
        var r := FindIn(tracks, codes[1..], kinds);
        assert forall k :: 0 <= k < |codes| - 1 ==> codes[1..][k] == codes[k + 1];
        r
  }

  /** `find_transcript`: for the earliest code that has a track, its
      manually created track if there is one, else its generated one. */
  function FindTranscript(tracks: seq<Track>, codes: seq<string>): (r: Option<Track>)
    ensures r.Some? ==> r.value in tracks
    ensures r.None? <==> forall k :: 0 <= k < |codes| ==> !HasCode(tracks, codes[k])
    ensures r.Some? ==> exists k ::
              && 0 <= k < |codes| && codes[k] == r.value.code
              && forall j :: 0 <= j < k ==> !HasCode(tracks, codes[j])
    ensures r.Some? && r.value.isGenerated ==> !HasTrack(tracks, r.value.code, false)
  {
    assert forall c :: Available(tracks, c, [false, true]) <==> HasCode(tracks, c) by {
      forall c ensures Available(tracks, c, [false, true]) <==> HasCode(tracks, c) {
        AvailableKinds(tracks, c);
      }
    }
    FindIn(tracks, codes, [false, true])
  }

  /** `find_manually_created_transcript`: the manually created track of the
      earliest code that has one. */
  function FindManuallyCreatedTranscript(tracks: seq<Track>, codes: seq<string>): (r: Option<Track>)
    ensures r.Some? ==> r.value in tracks && !r.value.isGenerated
    ensures r.None? <==> forall k :: 0 <= k < |codes| ==> !HasTrack(tracks, codes[k], false)
    ensures r.Some? ==> exists k ::
              && 0 <= k < |codes| && codes[k] == r.value.code
              && forall j :: 0 <= j < k ==> !HasTrack(tracks, codes[j], false)
  {
    assert forall c :: Available(tracks, c, [false]) <==> HasTrack(tracks, c, false) by {
      forall c ensures Available(tracks, c, [false]) <==> HasTrack(tracks, c, false) {
        AvailableKinds(tracks, c);
      }
    }
    FindIn(tracks, codes, [false])
  }

  /** `find_generated_transcript`: the generated track of the earliest code
      that has one. */
  function FindGeneratedTranscript(tracks: seq<Track>, codes: seq<string>): (r: Option<Track>)
    ensures r.Some? ==> r.value in tracks && r.value.isGenerated
    ensures r.None? <==> forall k :: 0 <= k < |codes| ==> !HasTrack(tracks, codes[k], true)
    ensures r.Some? ==> exists k ::
              && 0 <= k < |codes| && codes[k] == r.value.code
              && forall j :: 0 <= j < k ==> !HasTrack(tracks, codes[j], true)
  {
    assert forall c :: Available(tracks, c, [true]) <==> HasTrack(tracks, c, true) by {
      forall c ensures Available(tracks, c, [true]) <==> HasTrack(tracks, c, true) {
        AvailableKinds(tracks, c);
      }
    }
    FindIn(tracks, codes, [true])
  }

  /** `next(iter(transcript_list))`: the first track, or `None`
      (`StopIteration`) for an empty list. */
  function First(tracks: seq<Track>): (r: Option<Track>)
    ensures r.Some? <==> tracks != []
    ensures r.Some? ==> r.value == tracks[0]
  {
    if tracks == [] then None else Some(tracks[0])
  }

  /** `[t.language_code for t in transcript_list]`. */
  function AllCodes(tracks: seq<Track>): (r: seq<string>)
    ensures |r| == |tracks|
    ensures forall i :: 0 <= i < |tracks| ==> r[i] == tracks[i].code
  {
    seq(|tracks|, i requires 0 <= i < |tracks| => tracks[i].code)
  }

  /** `_pick_transcript(transcript_list, preferred_languages)`; an empty
      `preferred` stands for both `None` and `[]`. `None` is the
      `StopIteration` raised for an empty list. */
  function PickTranscript(tracks: seq<Track>, preferred: seq<string>): (r: Option<Track>)
    ensures r.Some? <==> tracks != []
    ensures r.Some? ==> r.value in tracks
  {
    var byPreference := if |preferred| > 0 then FindTranscript(tracks, preferred) else None;
    if byPreference.Some? then byPreference
    else
      var manualEnglish := FindManuallyCreatedTranscript(tracks, EnglishCodes);
      if manualEnglish.Some? then manualEnglish
      else
        var generatedEnglish := FindGeneratedTranscript(tracks, EnglishCodes);
        if generatedEnglish.Some? then generatedEnglish
        else
          var anyManual := FindManuallyCreatedTranscript(tracks, AllCodes(tracks));
          if anyManual.Some? then anyManual
          else
            var anyGenerated := FindGeneratedTranscript(tracks, AllCodes(tracks));
            if anyGenerated.Some? then anyGenerated
            else First(tracks)
  }

  /** How `Available` reads for the kind lists the three lookups use. */
  lemma AvailableKinds(tracks: seq<Track>, code: string)
    ensures Available(tracks, code, [false, true]) <==> HasCode(tracks, code)
    ensures Available(tracks, code, [false]) <==> HasTrack(tracks, code, false)
    ensures Available(tracks, code, [true]) <==> HasTrack(tracks, code, true)
  {
    if HasCode(tracks, code) {
      var t :| t in tracks && t.code == code;
      if t.isGenerated {
        assert HasTrack(tracks, code, [false, true][1]);
      } else {
        assert HasTrack(tracks, code, [false, true][0]);
      }
    }
    if HasTrack(tracks, code, false) {
      assert HasTrack(tracks, code, [false][0]);
    }
    if HasTrack(tracks, code, true) {
      assert HasTrack(tracks, code, [true][0]);
    }
  }

  /** No preferred code has a track. */
  predicate NoPreferenceMatches(tracks: seq<Track>, preferred: seq<string>) {
    forall j :: 0 <= j < |preferred| ==> !HasCode(tracks, preferred[j])
  }

  /** When no preferred code has a track, the preference step finds nothing. */
  lemma PreferenceStepFails(tracks: seq<Track>, preferred: seq<string>)
    requires NoPreferenceMatches(tracks, preferred)
    ensures FindTranscript(tracks, preferred).None?
  {
    forall j | 0 <= j < |preferred| ensures !Available(tracks, preferred[j], [false, true]) {
      AvailableKinds(tracks, preferred[j]);
    }
  }

  /** If the `k`-th preferred code is the first one that has a track, the
      chosen track has that code, and it is the manually created one when
      there is one. Preference order comes before manual over generated. */
  lemma PickHonoursPreference(tracks: seq<Track>, preferred: seq<string>, k: nat)
    requires k < |preferred| && HasCode(tracks, preferred[k])
    requires forall j :: 0 <= j < k ==> !HasCode(tracks, preferred[j])
    ensures var r := PickTranscript(tracks, preferred);
      && r.Some? && r.value.code == preferred[k]
      && (HasTrack(tracks, preferred[k], false) ==> !r.value.isGenerated)
  {
    forall j | 0 <= j < |preferred|
      ensures Available(tracks, preferred[j], [false, true]) <==> HasCode(tracks, preferred[j])
    {
      AvailableKinds(tracks, preferred[j]);
    }
    var f := FindTranscript(tracks, preferred);
    assert f.Some?;
    var k' :| 0 <= k' < |preferred| && preferred[k'] == f.value.code
      && forall j :: 0 <= j < k' ==> !Available(tracks, preferred[j], [false, true]);
    assert HasCode(tracks, preferred[k']);
    assert k' == k;
    var kind :| 0 <= kind < 2 && [false, true][kind] == f.value.isGenerated
      && forall j :: 0 <= j < kind ==> !HasTrack(tracks, f.value.code, [false, true][j]);
    if HasTrack(tracks, preferred[k], false) {
      assert kind == 0;
    }
  }

  /** With no preference matching, a manually created track with an
      `_ENGLISH_CODES` code is chosen whenever one exists. */
  lemma PickPrefersManualEnglish(tracks: seq<Track>, preferred: seq<string>)
    requires NoPreferenceMatches(tracks, preferred)
    requires exists t :: t in tracks && !t.isGenerated && t.code in EnglishCodes
    ensures var r := PickTranscript(tracks, preferred);
      r.Some? && !r.value.isGenerated && r.value.code in EnglishCodes
  {
    PreferenceStepFails(tracks, preferred);
    var t :| t in tracks && !t.isGenerated && t.code in EnglishCodes;
    var k :| 0 <= k < |EnglishCodes| && EnglishCodes[k] == t.code;
    AvailableKinds(tracks, t.code);
    var f := FindManuallyCreatedTranscript(tracks, EnglishCodes);
    assert f.Some?;
    var kind :| 0 <= kind < 1 && [false][kind] == f.value.isGenerated;
  }

  /** Without a manually created `_ENGLISH_CODES` track the manual English
      step finds nothing. */
  lemma ManualEnglishStepFails(tracks: seq<Track>)
    requires forall t :: t in tracks && t.code in EnglishCodes ==> t.isGenerated
    ensures FindManuallyCreatedTranscript(tracks, EnglishCodes).None?
  {
    forall k | 0 <= k < |EnglishCodes| ensures !Available(tracks, EnglishCodes[k], [false]) {
      AvailableKinds(tracks, EnglishCodes[k]);
    }
  }

  /** With no preference matching and no manually created English track, a
      generated track with an `_ENGLISH_CODES` code is chosen whenever one
      exists. */
  lemma PickFallsBackToGeneratedEnglish(tracks: seq<Track>, preferred: seq<string>)
    requires NoPreferenceMatches(tracks, preferred)
    requires forall t :: t in tracks && t.code in EnglishCodes ==> t.isGenerated
    requires exists t :: t in tracks && t.code in EnglishCodes
    ensures var r := PickTranscript(tracks, preferred);
      r.Some? && r.value.isGenerated && r.value.code in EnglishCodes
  {
    PreferenceStepFails(tracks, preferred);
    ManualEnglishStepFails(tracks);
    var t :| t in tracks && t.code in EnglishCodes;
    var k :| 0 <= k < |EnglishCodes| && EnglishCodes[k] == t.code;
    AvailableKinds(tracks, t.code);
    var f := FindGeneratedTranscript(tracks, EnglishCodes);
    assert f.Some?;
    assert PickTranscript(tracks, preferred) == f;
    var kind :| 0 <= kind < 1 && [true][kind] == f.value.isGenerated;
  }

  /** A track whose code is outside `_ENGLISH_CODES` is chosen only through
      a preference, or when no track at all has an `_ENGLISH_CODES` code. */
  lemma PickNonEnglishOnlyWithoutEnglish(tracks: seq<Track>, preferred: seq<string>)
    ensures var r := PickTranscript(tracks, preferred);
      r.Some? && r.value.code !in EnglishCodes ==>
        r.value.code in preferred || forall t :: t in tracks ==> t.code !in EnglishCodes
  {
    var byPreference := if |preferred| > 0 then FindTranscript(tracks, preferred) else None;
    if byPreference.None? {
      var manualEnglish := FindManuallyCreatedTranscript(tracks, EnglishCodes);
      var generatedEnglish := FindGeneratedTranscript(tracks, EnglishCodes);
      if manualEnglish.None? && generatedEnglish.None? {
        forall t | t in tracks ensures t.code !in EnglishCodes {
          AvailableKinds(tracks, t.code);
        }
      }
    }
  }

  /** Without any `_ENGLISH_CODES` track both English steps find nothing. */
  lemma EnglishStepsFail(tracks: seq<Track>)
    requires forall t :: t in tracks ==> t.code !in EnglishCodes
    ensures FindManuallyCreatedTranscript(tracks, EnglishCodes).None?
    ensures FindGeneratedTranscript(tracks, EnglishCodes).None?
  {
    forall k | 0 <= k < |EnglishCodes|
      ensures !Available(tracks, EnglishCodes[k], [false]) && !Available(tracks, EnglishCodes[k], [true])
    {
      AvailableKinds(tracks, EnglishCodes[k]);
    }
  }

  /** With no preference matching and no `_ENGLISH_CODES` track, a manually
      created track is chosen whenever one exists. */
  lemma PickPrefersManualFallback(tracks: seq<Track>, preferred: seq<string>)
    requires NoPreferenceMatches(tracks, preferred)
    requires forall t :: t in tracks ==> t.code !in EnglishCodes
    requires exists t :: t in tracks && !t.isGenerated
    ensures var r := PickTranscript(tracks, preferred);
      r.Some? && !r.value.isGenerated
  {
    PreferenceStepFails(tracks, preferred);
    EnglishStepsFail(tracks);
    var t :| t in tracks && !t.isGenerated;
    var i :| 0 <= i < |tracks| && tracks[i] == t;
    var codes := AllCodes(tracks);
    assert codes[i] == t.code;
    AvailableKinds(tracks, t.code);
    var f := FindManuallyCreatedTranscript(tracks, codes);
    assert f.Some?;
    assert PickTranscript(tracks, preferred) == f;
    var kind :| 0 <= kind < 1 && [false][kind] == f.value.isGenerated;
  }

  /** The last step, `next(iter(transcript_list))`, is never reached for a
      non-empty list: the search over all codes always finds a track. */
  lemma FirstTrackFallbackUnreachable(tracks: seq<Track>)
    requires tracks != []
    ensures FindManuallyCreatedTranscript(tracks, AllCodes(tracks)).Some?
         || FindGeneratedTranscript(tracks, AllCodes(tracks)).Some?
  {
    var codes := AllCodes(tracks);
    assert codes[0] == tracks[0].code;
    AvailableKinds(tracks, tracks[0].code);
  }

  /** Preferences `fr, es` with only a generated `es` track (and a manual
      `de` one) give the `es` track. */
  lemma PreferenceExample()
    ensures PickTranscript([Track("de", false), Track("es", true)], ["fr", "es"]) == Some(Track("es", true))
  {
    var tracks := [Track("de", false), Track("es", true)];
    assert tracks[1] in tracks;
    assert !HasCode(tracks, "fr");
    PickHonoursPreference(tracks, ["fr", "es"], 1);
  }

  /** An earlier preferred code wins even when only its generated track
      exists and a later preferred code has a manual one. */
  lemma PreferenceOrderBeatsManualExample()
    ensures PickTranscript([Track("es", false), Track("fr", true)], ["fr", "es"]) == Some(Track("fr", true))
  {
    var tracks := [Track("es", false), Track("fr", true)];
    assert tracks[1] in tracks;
    PickHonoursPreference(tracks, ["fr", "es"], 0);
  }

  /** Without preferences a generated English track beats a manual German
      one listed before it. */
  lemma EnglishFirstExample()
    ensures PickTranscript([Track("de", false), Track("en", true)], []) == Some(Track("en", true))
  {
    var tracks := [Track("de", false), Track("en", true)];
    assert tracks[1] in tracks;
    assert EnglishCodes[0] == "en";
    PickFallsBackToGeneratedEnglish(tracks, []);
  }

  /** `en-NZ` is not in `_ENGLISH_CODES`, so a manual German track beats a
      generated `en-NZ` one. */
  lemma UnlistedEnglishExample()
    ensures PickTranscript([Track("en-NZ", true), Track("de", false)], []) == Some(Track("de", false))
  {
    var tracks := [Track("en-NZ", true), Track("de", false)];
    assert tracks[1] in tracks;
    assert forall t :: t in tracks ==> t.code !in EnglishCodes;
    PickPrefersManualFallback(tracks, []);
  }
}
