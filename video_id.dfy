/** `extract_video_id`: three fixed patterns, tried in order, each searched
    for leftmost in the URL; the first that matches gives the ID. */
module VideoId {
  import opened Wrappers

  /** Length of a video ID. */
  const IdLength: nat := 11

  /** The ID alphabet: ASCII letters, digits, `_` and `-`. */
  predicate IsIdChar(c: char) {
    ('0' <= c <= '9') || ('A' <= c <= 'Z') || ('a' <= c <= 'z') || c == '_' || c == '-'
  }

  predicate IsVideoId(s: string) {
    |s| == IdLength && forall i :: 0 <= i < |s| ==> IsIdChar(s[i])
  }

  /** One of the fixed patterns: a literal lead (one of several alternatives,
      tried in order), then a group of eleven ID characters, then, when
      `anchored`, a terminator (see `TerminatorAt`). */
  datatype Pattern = Pattern(leads: seq<string>, anchored: bool)

  /** The three patterns of `extract_video_id`, in order: `v=` or `/` before
      the ID and a terminator after it; `youtu.be/` before it; `embed/`
      before it. */
  const Patterns: seq<Pattern> := [
    Pattern(["v=", "/"], true),
    Pattern(["youtu.be/"], false),
    Pattern(["embed/"], false)
  ]

  /** The terminator group of the first pattern at position `k`: a `&` or
      `?`, or the end of the string, where Python's `$` also matches just
      before a final newline. */
  predicate TerminatorAt(url: string, k: nat) {
    || k == |url|
    || (k < |url| && (url[k] == '&' || url[k] == '?'))
    || (k + 1 == |url| && url[k] == '\n')
  }

  /** `lead`, eleven ID characters and (if `anchored`) a terminator, starting
      at position `i`; the result is the group. */
  function MatchLead(url: string, i: nat, lead: string, anchored: bool): (r: Option<string>)
    ensures r.Some? ==> IsVideoId(r.value)
    ensures r.Some? ==> OccursAt(r.value, url, i + |lead|)
  {
    var j := i + |lead|;
    if && j + IdLength <= |url|
       && url[i..j] == lead
       && (forall m :: j <= m < j + IdLength ==> IsIdChar(url[m]))
       && (!anchored || TerminatorAt(url, j + IdLength))
    then Some(url[j..j + IdLength])
    else None
  }

  /** The alternatives of the lead, tried in order at one position. */
  function MatchLeads(leads: seq<string>, anchored: bool, url: string, i: nat): (r: Option<string>)
    ensures r.Some? ==> IsVideoId(r.value)
  {
    if leads == [] then None
    else if MatchLead(url, i, leads[0], anchored).Some? then MatchLead(url, i, leads[0], anchored)
    else MatchLeads(leads[1..], anchored, url, i)
  }

  /** There is no group exactly when no alternative matches; otherwise the
      first alternative that matches gives it. */
  lemma {:induction false} MatchLeadsFirst(leads: seq<string>, anchored: bool, url: string, i: nat)
    ensures var r := MatchLeads(leads, anchored, url, i);
      r.None? <==> forall k :: 0 <= k < |leads| ==> MatchLead(url, i, leads[k], anchored).None?
    ensures var r := MatchLeads(leads, anchored, url, i);
      r.Some? ==> exists k ::
        && 0 <= k < |leads| && MatchLead(url, i, leads[k], anchored) == r
        && forall j :: 0 <= j < k ==> MatchLead(url, i, leads[j], anchored).None?
  {
    if leads != [] && MatchLead(url, i, leads[0], anchored).None? {
      var rest := leads[1..];
      MatchLeadsFirst(rest, anchored, url, i);
      var r := MatchLeads(rest, anchored, url, i);
      assert MatchLeads(leads, anchored, url, i) == r;
      if r.Some? {
        var k :| && 0 <= k < |rest| && MatchLead(url, i, rest[k], anchored) == r
                 && forall j :: 0 <= j < k ==> MatchLead(url, i, rest[j], anchored).None?;
        assert forall j :: 1 <= j < k + 1 ==> leads[j] == rest[j - 1];
        assert MatchLead(url, i, leads[k + 1], anchored) == r;
      }
      assert forall k :: 1 <= k < |leads| ==> leads[k] == rest[k - 1];
    }
  }

  /** The pattern matched at position `i`, with its group. */
  function MatchAt(p: Pattern, url: string, i: nat): (r: Option<string>)
    ensures r.Some? ==> IsVideoId(r.value)
  {
    MatchLeads(p.leads, p.anchored, url, i)
  }

  /** `re.search` from position `from` on: the match at the leftmost
      position where the pattern matches. */
  function SearchFrom(p: Pattern, url: string, from: nat): (r: Option<string>)
    ensures r.Some? ==> IsVideoId(r.value)
    decreases |url| + 1 - from
  {
    if from > |url| then None
    else if MatchAt(p, url, from).Some? then MatchAt(p, url, from)
    else SearchFrom(p, url, from + 1)
  }

  /** The search fails exactly when no position matches, and otherwise
      returns the match at the leftmost matching position. */
  lemma {:induction false} SearchFromLeftmost(p: Pattern, url: string, from: nat)
    ensures SearchFrom(p, url, from).None? <==> forall i :: from <= i <= |url| ==> MatchAt(p, url, i).None?
    ensures SearchFrom(p, url, from).Some? ==> exists i ::
              && from <= i <= |url| && MatchAt(p, url, i) == SearchFrom(p, url, from)
              && forall j :: from <= j < i ==> MatchAt(p, url, j).None?
    decreases |url| + 1 - from
  {
    if from <= |url| {
      var here := MatchAt(p, url, from);
      if here.Some? {
        assert SearchFrom(p, url, from) == here;
      } else {
        SearchFromLeftmost(p, url, from + 1);
        var rest := SearchFrom(p, url, from + 1);
        assert SearchFrom(p, url, from) == rest;
        if rest.Some? {
          var i :| && from + 1 <= i <= |url| && MatchAt(p, url, i) == rest
                   && forall j :: from + 1 <= j < i ==> MatchAt(p, url, j).None?;
          assert forall j :: from <= j < i ==> MatchAt(p, url, j).None?;
        }
      }
    }
  }

  /** `re.search(pattern, url)`, giving `match.group(1)`. */
  function Search(p: Pattern, url: string): (r: Option<string>)
    ensures r.Some? ==> IsVideoId(r.value)
  {
    SearchFrom(p, url, 0)
  }

  /** The message of the `ValueError`. */
  function NoIdMessage(url: string): string {
    "Could not extract a valid YouTube video ID from: " + url
  }

  /** `extract_video_id(url)`: the group of the first pattern, in list
      order, that has a match; `Err` (the `ValueError`) when none has. */
  method ExtractVideoId(url: string) returns (r: Result<string>)
    ensures r.Ok? ==> IsVideoId(r.value)
    ensures r.Ok? ==> exists k ::
              && 0 <= k < |Patterns| && Search(Patterns[k], url) == Some(r.value)
              && forall j :: 0 <= j < k ==> Search(Patterns[j], url).None?
    ensures r.Err? <==> forall k :: 0 <= k < |Patterns| ==> Search(Patterns[k], url).None?
    ensures r.Err? ==> r.message == NoIdMessage(url)
  {
    for k := 0 to |Patterns|
      invariant forall j :: 0 <= j < k ==> Search(Patterns[j], url).None?
    {
      var m := Search(Patterns[k], url);
      if m.Some? {
        return Ok(m.value);
      }
    }
    return Err(NoIdMessage(url));
  }

  /** `id` stands in `url` at position `a`. */
  predicate OccursAt(id: string, url: string, a: nat) {
    a + |id| <= |url| && url[a..a + |id|] == id
  }

  /** No alternative of the lead occurs at position `i`. */
  predicate NoLeadAt(p: Pattern, url: string, i: nat) {
    forall k :: 0 <= k < |p.leads| ==> !(i + |p.leads[k]| <= |url| && url[i..i + |p.leads[k]|] == p.leads[k])
  }

  /** A pattern cannot match where its lead does not occur. */
  lemma NoMatchWithoutLead(p: Pattern, url: string, i: nat)
    requires NoLeadAt(p, url, i)
    ensures MatchAt(p, url, i).None?
  {
    forall k | 0 <= k < |p.leads| ensures MatchLead(url, i, p.leads[k], p.anchored).None? {
    }
    MatchLeadsFirst(p.leads, p.anchored, url, i);
  }

  /** Every match needs at least twelve characters (the shortest lead is
      `/`), so a shorter string, a bare ID among them, has no match for any
      pattern: `extract_video_id` rejects it with the `ValueError`. */
  lemma BareIdRejected(url: string)
    requires |url| < 12
    ensures forall k :: 0 <= k < |Patterns| ==> Search(Patterns[k], url).None?
  {
    forall k, i | 0 <= k < |Patterns| && 0 <= i <= |url| ensures MatchAt(Patterns[k], url, i).None? {
      assert forall l :: 0 <= l < |Patterns[k].leads| ==> |Patterns[k].leads[l]| >= 1;
      MatchLeadsFirst(Patterns[k].leads, Patterns[k].anchored, url, i);
    }
    forall k | 0 <= k < |Patterns| ensures Search(Patterns[k], url).None? {
      SearchFromLeftmost(Patterns[k], url, 0);
    }
  }

  /** A string with none of the characters `/`, `v`, `y` and `e` has no
      match for any pattern, whatever its length. */
  lemma NoLeadCharacterRejected(url: string)
    requires forall c :: c in url ==> c != '/' && c != 'v' && c != 'y' && c != 'e'
    ensures forall k :: 0 <= k < |Patterns| ==> Search(Patterns[k], url).None?
  {
    forall k, i | 0 <= k < |Patterns| && 0 <= i <= |url| ensures MatchAt(Patterns[k], url, i).None? {
      forall l | 0 <= l < |Patterns[k].leads| && i + |Patterns[k].leads[l]| <= |url|
        ensures url[i..i + |Patterns[k].leads[l]|] != Patterns[k].leads[l]
      {
        var lead := Patterns[k].leads[l];
        assert lead[0] == '/' || lead[0] == 'v' || lead[0] == 'y' || lead[0] == 'e';
        assert url[i] in url;
        assert url[i..i + |lead|][0] == url[i];
      }
      NoMatchWithoutLead(Patterns[k], url, i);
    }
    forall k | 0 <= k < |Patterns| ensures Search(Patterns[k], url).None? {
      SearchFromLeftmost(Patterns[k], url, 0);
    }
  }

  /** A short URL `youtu.be/<id>` gives `<id>` through the first pattern
      (its `/` before the ID and the end of the string after it). */
  lemma ShortUrlGivesId(id: string)
    requires IsVideoId(id)
    ensures Search(Patterns[0], "youtu.be/" + id) == Some(id)
  {
    var url := "youtu.be/" + id;
    var p := Patterns[0];
    forall i | 0 <= i < 8 ensures MatchAt(p, url, i).None? {
      assert url[i] == "youtu.be"[i];
      assert "youtu.be"[i] in "youtu.be";
      assert url[i] != 'v' && url[i] != '/';
      assert url[i..i + 1][0] == url[i];
      NoMatchWithoutLead(p, url, i);
    }
    assert url[8..9] == "/";
    assert url[9..20] == id;
    assert MatchLead(url, 8, "v=", true).None?;
    assert MatchLead(url, 8, "/", true) == Some(id);
    assert p.leads[1..] == ["/"];
    assert MatchLeads(["/"], true, url, 8) == Some(id);
    assert MatchAt(p, url, 8) == Some(id);
    SearchFromLeftmost(p, url, 0);
  }

  /** The ID found is eleven consecutive characters of the URL. */
  lemma SearchResultOccursInUrl(p: Pattern, url: string)
    requires Search(p, url).Some?
    ensures exists a :: OccursAt(Search(p, url).value, url, a)
  {
    SearchFromLeftmost(p, url, 0);
    var i :| 0 <= i <= |url| && MatchAt(p, url, i) == SearchFrom(p, url, 0);
    MatchLeadsOccurs(p.leads, p.anchored, url, i);
  }

  lemma MatchLeadsOccurs(leads: seq<string>, anchored: bool, url: string, i: nat)
    requires MatchLeads(leads, anchored, url, i).Some?
    ensures exists a :: OccursAt(MatchLeads(leads, anchored, url, i).value, url, a)
  {
    MatchLeadsFirst(leads, anchored, url, i);
    var k :| 0 <= k < |leads| && MatchLead(url, i, leads[k], anchored) == MatchLeads(leads, anchored, url, i);
    assert OccursAt(MatchLead(url, i, leads[k], anchored).value, url, i + |leads[k]|);
  }

  /** With a fragment after the ID, `youtu.be/<id>#t` has no match for the
      first pattern (no terminator follows the ID), so the second pattern
      supplies the ID. */
  lemma ShortUrlWithFragmentUsesSecondPattern(id: string)
    requires IsVideoId(id)
    ensures Search(Patterns[0], "youtu.be/" + id + "#t").None?
    ensures Search(Patterns[1], "youtu.be/" + id + "#t") == Some(id)
  {
    var url := "youtu.be/" + id + "#t";
    var p := Patterns[0];
    assert |url| == 22;
    assert forall m :: 9 <= m < 20 ==> url[m] == id[m - 9];
    assert url[20] == '#' && url[21] == 't';
    forall i | 0 <= i <= |url| ensures MatchAt(p, url, i).None? {
      if i < 8 {
        assert url[i] == "youtu.be"[i];
        assert "youtu.be"[i] in "youtu.be";
      }
      if i < |url| {
        assert url[i..i + 1][0] == url[i];
      }
      if i + 2 <= |url| {
        assert url[i..i + 2][0] == url[i] && url[i..i + 2][1] == url[i + 1];
      }
      if i == 8 {
        assert !TerminatorAt(url, 20);
        assert MatchLead(url, 8, "v=", true).None?;
        assert MatchLead(url, 8, "/", true).None?;
        MatchLeadsFirst(p.leads, p.anchored, url, i);
      } else {
        NoMatchWithoutLead(p, url, i);
      }
    }
    var q := Patterns[1];
    assert url[0..9] == "youtu.be/";
    assert url[9..20] == id;
    assert MatchLead(url, 0, "youtu.be/", false) == Some(id);
    assert MatchAt(q, url, 0) == Some(id);
    SearchFromLeftmost(p, url, 0);
    SearchFromLeftmost(q, url, 0);
  }
}
