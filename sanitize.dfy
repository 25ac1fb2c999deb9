/** `sanitize_filename`: the six-stage pipeline that turns a raw video
    title into a safe base name for the transcript file. */
module Sanitize {
  import opened Strings

  /** Python's `s.replace(pat, rep)`: every occurrence of `pat`, found left
      to right without overlap, is replaced by `rep`. */
  function ReplaceAll(s: string, pat: string, rep: string): (r: string)
    requires |pat| > 0
    ensures pat[0] !in s ==> r == s
    decreases |s|
  {
    if |s| < |pat| then s
    else if s[..|pat|] == pat then rep + ReplaceAll(s[|pat|..], pat, rep)
    else [s[0]] + ReplaceAll(s[1..], pat, rep)
  }

  /** Stage 1: the four HTML entities, decoded one after the other (so
      `&amp;lt;` becomes `<`). */
  function DecodeEntities(s: string): (r: string)
    ensures '&' !in s ==> r == s
  {
    var amp := ReplaceAll(s, "&amp;", "&");
    var lt := ReplaceAll(amp, "&lt;", "<");
    var gt := ReplaceAll(lt, "&gt;", ">");
    ReplaceAll(gt, "&#39;", "'")
  }

  /** `str.replace` adds no character but those of the replacement. */
  lemma {:induction false} ReplaceAllChars(s: string, pat: string, rep: string)
    requires |pat| > 0
    ensures forall c :: c in ReplaceAll(s, pat, rep) ==> c in s || c in rep
    decreases |s|
  {
    if |s| >= |pat| {
      if s[..|pat|] == pat {
        ReplaceAllChars(s[|pat|..], pat, rep);
        assert forall c :: c in s[|pat|..] ==> c in s;
      } else {
        ReplaceAllChars(s[1..], pat, rep);
        assert forall c :: c in s[1..] ==> c in s;
      }
    }
  }

  /** Stage 1 adds no character but `&`, `<`, `>` and `'`. */
  lemma DecodeEntitiesChars(s: string)
    ensures forall c :: c in DecodeEntities(s) ==> c in s || c in "&<>'"
  {
    var amp := ReplaceAll(s, "&amp;", "&");
    ReplaceAllChars(s, "&amp;", "&");
    var lt := ReplaceAll(amp, "&lt;", "<");
    ReplaceAllChars(amp, "&lt;", "<");
    var gt := ReplaceAll(lt, "&gt;", ">");
    ReplaceAllChars(lt, "&gt;", ">");
    ReplaceAllChars(gt, "&#39;", "'");
  }

  /** A prefix without the pattern's first character is copied unchanged. */
  lemma {:induction false} ReplaceAllPrefix(a: string, s: string, pat: string, rep: string)
    requires |pat| > 0 && pat[0] !in a
    ensures ReplaceAll(a + s, pat, rep) == a + ReplaceAll(s, pat, rep)
  {
    if a == [] {
      assert a + s == s;
    } else {
      var t := a + s;
      assert t[0] == a[0] && t[1..] == a[1..] + s;
      assert a[0] in a;
      assert !StartsWith(t, pat) by {
        if |pat| <= |t| {
          assert t[..|pat|][0] == t[0];
        }
      }
      assert pat[0] !in a[1..] by {
        assert forall c :: c in a[1..] ==> c in a;
      }
      ReplaceAllPrefix(a[1..], s, pat, rep);
      var x, y := a[1..], ReplaceAll(s, pat, rep);
      assert [a[0]] + (x + y) == ([a[0]] + x) + y;
      assert a == [a[0]] + x;
    }
  }

  /** An occurrence of the pattern after such a prefix becomes the
      replacement, and the replacing goes on after it. */
  lemma ReplaceAllSplit(a: string, b: string, pat: string, rep: string)
    requires |pat| > 0 && pat[0] !in a
    ensures ReplaceAll(a + pat + b, pat, rep) == a + rep + ReplaceAll(b, pat, rep)
  {
    assert a + pat + b == a + (pat + b);
    ReplaceAllPrefix(a, pat + b, pat, rep);
    assert (pat + b)[..|pat|] == pat && (pat + b)[|pat|..] == b;
  }

  /** A piece that starts like the pattern but differs from it in its
      second character, and holds the pattern's first character nowhere
      else, is copied unchanged. */
  lemma ReplaceAllSkip(x: string, s: string, pat: string, rep: string)
    requires |x| >= 2 && |pat| >= 2 && x[1] != pat[1] && pat[0] !in x[1..]
    ensures ReplaceAll(x + s, pat, rep) == x + ReplaceAll(s, pat, rep)
  {
    var t, y, rest := x + s, x[1..], ReplaceAll(s, pat, rep);
    if |t| < |pat| {
      assert rest == s;
    } else {
      assert ReplaceAll(t, pat, rep) == [x[0]] + ReplaceAll(y + s, pat, rep) by {
        assert t[..|pat|] != pat by {
          assert t[..|pat|][1] == x[1];
        }
        assert t[0] == x[0] && t[1..] == y + s;
      }
      assert ReplaceAll(y + s, pat, rep) == y + rest by {
        ReplaceAllPrefix(y, s, pat, rep);
      }
      assert [x[0]] + (y + rest) == x + rest by {
        assert [x[0]] + y == x;
      }
    }
  }

  /** The four entities that stage 1 decodes. */
  predicate IsEntity(x: string) {
    x == "&amp;" || x == "&lt;" || x == "&gt;" || x == "&#39;"
  }

  /** One replacement pass for an entity `pat`, over a piece at the front
      that is an entity or one character other than `&`: the piece is
      replaced when it is `pat` and copied otherwise. */
  lemma PassOver(x: string, s: string, pat: string, rep: string)
    requires IsEntity(pat)
    requires IsEntity(x) || (|x| == 1 && x[0] != '&')
    ensures ReplaceAll(x + s, pat, rep) == (if x == pat then rep else x) + ReplaceAll(s, pat, rep)
  {
    if x == pat {
      ReplaceAllSplit([], s, pat, rep);
      assert [] + pat + s == x + s;
    } else if IsEntity(x) {
      ReplaceAllSkip(x, s, pat, rep);
    } else {
      ReplaceAllPrefix(x, s, pat, rep);
    }
  }

  /** Stage 1 copies a prefix without `&` unchanged. */
  lemma DecodePrefix(a: string, s: string)
    requires '&' !in a
    ensures DecodeEntities(a + s) == a + DecodeEntities(s)
  {
    var amp := ReplaceAll(s, "&amp;", "&");
    ReplaceAllPrefix(a, s, "&amp;", "&");
    var lt := ReplaceAll(amp, "&lt;", "<");
    ReplaceAllPrefix(a, amp, "&lt;", "<");
    var gt := ReplaceAll(lt, "&gt;", ">");
    ReplaceAllPrefix(a, lt, "&gt;", ">");
    ReplaceAllPrefix(a, gt, "&#39;", "'");
  }

  /** `&lt;`, `&gt;` and `&#39;` each become their character, and decoding
      goes on after it. */
  lemma DecodeEntity(a: string, entity: string, decoded: string, s: string)
    requires '&' !in a
    requires || (entity == "&lt;" && decoded == "<")
             || (entity == "&gt;" && decoded == ">")
             || (entity == "&#39;" && decoded == "'")
    ensures DecodeEntities(a + entity + s) == a + decoded + DecodeEntities(s)
  {
    assert a + entity + s == a + (entity + s);
    DecodePrefix(a, entity + s);
    var s1 := ReplaceAll(s, "&amp;", "&");
    PassOver(entity, s, "&amp;", "&");
    var p2 := if entity == "&lt;" then "<" else entity;
    var s2 := ReplaceAll(s1, "&lt;", "<");
    PassOver(entity, s1, "&lt;", "<");
    var p3 := if p2 == "&gt;" then ">" else p2;
    var s3 := ReplaceAll(s2, "&gt;", ">");
    PassOver(p2, s2, "&gt;", ">");
    PassOver(p3, s3, "&#39;", "'");
  }

  /** An `&` that does not begin an entity survives a pass for `&lt;`,
      `&gt;` or `&#39;`. */
  lemma AmpersandSurvives(b: string, pat: string, rep: string)
    requires '&' !in b
    requires pat == "&lt;" || pat == "&gt;" || pat == "&#39;"
    requires !StartsWith(b, pat[1..])
    ensures ReplaceAll("&" + b, pat, rep) == "&" + b
  {
    var t := "&" + b;
    assert t[1..] == b;
  }

  /** `&amp;` becomes `&`, which is decoded again only when it then begins
      `&lt;`, `&gt;` or `&#39;`. */
  lemma DecodeAmpersand(a: string, b: string)
    requires '&' !in a && '&' !in b
    requires !StartsWith(b, "lt;") && !StartsWith(b, "gt;") && !StartsWith(b, "#39;")
    ensures DecodeEntities(a + "&amp;" + b) == a + "&" + b
  {
    assert a + "&amp;" + b == a + ("&amp;" + b);
    DecodePrefix(a, "&amp;" + b);
    PassOver("&amp;", b, "&amp;", "&");
    AmpersandSurvives(b, "&lt;", "<");
    AmpersandSurvives(b, "&gt;", ">");
    AmpersandSurvives(b, "&#39;", "'");
  }

  /** The entities are decoded one after the other, so `&amp;lt;` becomes
      `<`. */
  lemma DoubleDecodingExample()
    ensures DecodeEntities("&amp;lt;") == "<"
  {
  }

  /** NFKD decomposition followed by dropping every non-ASCII code point,
      for one character. Exact for ASCII, for the Latin-1 Supplement block
      (U+00A0-U+00FF), for the fixed-width spaces (U+2000-U+200A, U+202F,
      U+205F, U+3000) and for the fullwidth forms of ASCII (U+FF01-U+FF5E);
      every other non-ASCII character is dropped. */
  function AsciiOf(c: char): (r: string)
    ensures AllAscii(r)
    ensures IsAscii(c) ==> r == [c]
  {
    if IsAscii(c) then [c]
    // No-break space, diaeresis, macron, acute accent and cedilla decompose
    // to a space followed by a combining mark.
    else if c == '\U{A0}' || c == '\U{A8}' || c == '\U{AF}' || c == '\U{B4}' || c == '\U{B8}' then " "
    // The other fixed-width spaces decompose to a plain space.
    else if ('\U{2000}' <= c <= '\U{200A}') || c == '\U{202F}' || c == '\U{205F}' || c == '\U{3000}' then " "
    else if c == '\U{AA}' then "a"
    else if c == '\U{B2}' then "2"
    else if c == '\U{B3}' then "3"
    else if c == '\U{B9}' then "1"
    else if c == '\U{BA}' then "o"
    // Vulgar fractions decompose to digit, fraction slash, digit.
    else if c == '\U{BC}' then "14"
    else if c == '\U{BD}' then "12"
    else if c == '\U{BE}' then "34"
    else if '\U{C0}' <= c <= '\U{C5}' then "A"
    else if c == '\U{C7}' then "C"
    else if '\U{C8}' <= c <= '\U{CB}' then "E"
    else if '\U{CC}' <= c <= '\U{CF}' then "I"
    else if c == '\U{D1}' then "N"
    else if '\U{D2}' <= c <= '\U{D6}' then "O"
    else if '\U{D9}' <= c <= '\U{DC}' then "U"
    else if c == '\U{DD}' then "Y"
    else if '\U{E0}' <= c <= '\U{E5}' then "a"
    else if c == '\U{E7}' then "c"
    else if '\U{E8}' <= c <= '\U{EB}' then "e"
    else if '\U{EC}' <= c <= '\U{EF}' then "i"
    else if c == '\U{F1}' then "n"
    else if '\U{F2}' <= c <= '\U{F6}' then "o"
    else if '\U{F9}' <= c <= '\U{FC}' then "u"
    else if c == '\U{FD}' || c == '\U{FF}' then "y"
    else if '\U{FF01}' <= c <= '\U{FF5E}' then [(c as int - 0xFEE0) as char]
    else []
  }

  /** Stage 2: transliterate to ASCII, character by character. */
  function ToAscii(s: string): (r: string)
    ensures AllAscii(r)
    ensures AllAscii(s) ==> r == s
  {
    FlatMapAscii(s, AsciiOf);
    FlatMapIdentity(s, AsciiOf);
    FlatMap(s, AsciiOf)
  }

  predicate NotUnderscore(c: char) {
    c != '_'
  }

  predicate IsUnderscore(c: char) {
    c == '_'
  }

  /** Neither whitespace nor `_`. */
  predicate IsVisible(c: char) {
    !IsSpace(c) && c != '_'
  }

  /** Stage 3: every run of whitespace becomes one `_` (each space of a run
      but the last is dropped, the last becomes `_`). */
  function UnderscoreWhitespace(s: string): string {
    if s == [] then []
    else if IsSpace(s[0]) && |s| > 1 && IsSpace(s[1]) then UnderscoreWhitespace(s[1..])
    else
      var rest := UnderscoreWhitespace(s[1..]);
      var r := [if IsSpace(s[0]) then '_' else s[0]] + rest;
      assert r[1..] == rest;
      r
  }

  /** Stage 3 leaves a title without whitespace unchanged. */
  lemma {:induction false} UnderscoreWhitespaceIdentity(s: string)
    requires forall i :: 0 <= i < |s| ==> !IsSpace(s[i])
    ensures UnderscoreWhitespace(s) == s
    decreases |s|
  {
    if s != [] {
      assert forall i :: 0 <= i < |s| - 1 ==> s[1..][i] == s[i + 1];
      UnderscoreWhitespaceIdentity(s[1..]);
      assert s == [s[0]] + s[1..];
    }
  }

  /** After stage 3 no whitespace is left, nothing but `_` is added, and
      the characters other than whitespace and `_` are kept, in order. */
  lemma {:induction false} UnderscoreWhitespaceKeeps(s: string)
    ensures forall c :: c in UnderscoreWhitespace(s) ==> !IsSpace(c) && (c in s || c == '_')
    ensures Filter(UnderscoreWhitespace(s), NotUnderscore) == Filter(s, IsVisible)
    decreases |s|
  {
    if s != [] {
      UnderscoreWhitespaceKeeps(s[1..]);
      assert forall c :: c in s[1..] ==> c in s;
      if !(IsSpace(s[0]) && |s| > 1 && IsSpace(s[1])) {
        var rest := UnderscoreWhitespace(s[1..]);
        var r := [if IsSpace(s[0]) then '_' else s[0]] + rest;
        assert r[1..] == rest;
      }
    }
  }

  /** Stage 3 copies a prefix without whitespace unchanged. */
  lemma {:induction false} UnderscoreWhitespacePrefix(a: string, s: string)
    requires forall i :: 0 <= i < |a| ==> !IsSpace(a[i])
    ensures UnderscoreWhitespace(a + s) == a + UnderscoreWhitespace(s)
  {
    if a == [] {
      assert a + s == s;
    } else {
      var t := a + s;
      assert t[0] == a[0] && t[1..] == a[1..] + s;
      assert UnderscoreWhitespace(t) == [a[0]] + UnderscoreWhitespace(a[1..] + s);
      UnderscoreWhitespacePrefix(a[1..], s);
      var x, y := a[1..], UnderscoreWhitespace(s);
      assert [a[0]] + (x + y) == ([a[0]] + x) + y;
      assert a == [a[0]] + x;
    }
  }

  /** A whitespace run that is followed by something other than whitespace
      becomes one `_`. */
  lemma {:induction false} UnderscoreWhitespaceRun(w: string, b: string)
    requires |w| > 0 && forall i :: 0 <= i < |w| ==> IsSpace(w[i])
    requires b == [] || !IsSpace(b[0])
    ensures UnderscoreWhitespace(w + b) == "_" + UnderscoreWhitespace(b)
  {
    var t := w + b;
    assert t[0] == w[0] && IsSpace(t[0]);
    if |w| == 1 {
      assert t[1..] == b;
    } else {
      assert t[1] == w[1] && t[1..] == w[1..] + b;
      UnderscoreWhitespaceRun(w[1..], b);
    }
  }

  /** The splitting law of stage 3: between text without whitespace and
      text that does not start with whitespace, a whitespace run becomes
      exactly one `_`. */
  lemma UnderscoreWhitespaceSplit(a: string, w: string, b: string)
    requires forall i :: 0 <= i < |a| ==> !IsSpace(a[i])
    requires |w| > 0 && forall i :: 0 <= i < |w| ==> IsSpace(w[i])
    requires b == [] || !IsSpace(b[0])
    ensures UnderscoreWhitespace(a + w + b) == a + "_" + UnderscoreWhitespace(b)
  {
    var t, u := w + b, UnderscoreWhitespace(b);
    assert a + w + b == a + t;
    calc {
      UnderscoreWhitespace(a + t);
    ==  { UnderscoreWhitespacePrefix(a, t); }
      a + UnderscoreWhitespace(t);
    ==  { UnderscoreWhitespaceRun(w, b); }
      a + ("_" + u);
    ==
      a + "_" + u;
    }
  }

  /** The characters kept by stage 4: ASCII letters and digits, `_`, `-`
      and `.`. */
  predicate IsSafeChar(c: char) {
    ('A' <= c <= 'Z') || ('a' <= c <= 'z') || ('0' <= c <= '9') || c == '_' || c == '-' || c == '.'
  }

  predicate NoDoubleUnderscore(s: string) {
    forall i :: 0 <= i < |s| - 1 ==> !(s[i] == '_' && s[i + 1] == '_')
  }

  /** How `__` can occur in a string with a given first character. */
  lemma NoDoubleUnderscoreCons(x: char, t: string)
    ensures NoDoubleUnderscore([x] + t) <==> NoDoubleUnderscore(t) && !(|t| > 0 && x == '_' && t[0] == '_')
  {
    var s := [x] + t;
    assert forall i :: 1 <= i < |s| ==> s[i] == t[i - 1];
    if NoDoubleUnderscore(s) {
      forall i | 0 <= i < |t| - 1 ensures !(t[i] == '_' && t[i + 1] == '_') {
        assert s[i + 1] == t[i] && s[i + 2] == t[i + 1];
      }
      if |t| > 0 {
        assert s[0] == x && s[1] == t[0];
      }
    }
  }

  /** Stage 5: every run of `_` becomes one `_`. */
  function CollapseUnderscores(s: string): (r: string)
    ensures NoDoubleUnderscore(r)
    ensures NoDoubleUnderscore(s) ==> r == s
    ensures forall c :: c in r ==> c in s
    ensures Filter(r, NotUnderscore) == Filter(s, NotUnderscore)
    ensures |s| > 0 ==> |r| > 0 && r[0] == s[0]
  {
    if |s| < 2 then s
    else
      assert s == [s[0]] + s[1..];
      NoDoubleUnderscoreCons(s[0], s[1..]);
      if s[0] == '_' && s[1] == '_' then CollapseUnderscores(s[1..])
      else
        var rest := CollapseUnderscores(s[1..]);
        var r := [s[0]] + rest;
        assert r[1..] == rest;
        NoDoubleUnderscoreCons(s[0], rest);
        r
  }

  /** A character other than `_` in front is kept, and collapsing goes on
      after it. */
  lemma CollapseCons(c: char, u: string)
    requires c != '_'
    ensures CollapseUnderscores([c] + u) == [c] + CollapseUnderscores(u)
  {
    var t := [c] + u;
    assert t[0] == c && t[1..] == u;
  }

  /** Stage 5 copies a prefix without `_` unchanged. */
  lemma {:induction false} CollapsePrefix(a: string, s: string)
    requires forall i :: 0 <= i < |a| ==> a[i] != '_'
    ensures CollapseUnderscores(a + s) == a + CollapseUnderscores(s)
  {
    if a == [] {
      assert a + s == s;
    } else {
      var x, y := a[1..], CollapseUnderscores(s);
      assert a == [a[0]] + x;
      assert a + s == [a[0]] + (x + s);
      assert CollapseUnderscores(x + s) == x + y by {
        assert forall i :: 0 <= i < |x| ==> x[i] == a[i + 1];
        CollapsePrefix(x, s);
      }
      CollapseCons(a[0], x + s);
      ConsAppend(a[0], x, y);
    }
  }

  /** A run of `_` that is followed by something other than `_` becomes
      one `_`. */
  lemma {:induction false} CollapseRun(u: string, b: string)
    requires |u| > 0 && forall i :: 0 <= i < |u| ==> u[i] == '_'
    requires b == [] || b[0] != '_'
    ensures CollapseUnderscores(u + b) == "_" + CollapseUnderscores(b)
  {
    var t := u + b;
    assert t[0] == '_';
    if |u| == 1 {
      assert t[1..] == b;
    } else {
      assert t[1] == u[1] && t[1..] == u[1..] + b;
      CollapseRun(u[1..], b);
    }
  }

  /** The splitting law of stage 5: between text without `_` and text that
      does not start with `_`, a run of `_` becomes exactly one `_`. */
  lemma CollapseSplit(a: string, u: string, b: string)
    requires forall i :: 0 <= i < |a| ==> a[i] != '_'
    requires |u| > 0 && forall i :: 0 <= i < |u| ==> u[i] == '_'
    requires b == [] || b[0] != '_'
    ensures CollapseUnderscores(a + u + b) == a + "_" + CollapseUnderscores(b)
  {
    assert a + u + b == a + (u + b);
    CollapsePrefix(a, u + b);
    CollapseRun(u, b);
  }

  /** A slice of a string without `__` has none either. */
  lemma SliceKeepsNoDoubleUnderscore(s: string, lo: nat, hi: nat)
    requires lo <= hi <= |s| && NoDoubleUnderscore(s)
    ensures NoDoubleUnderscore(s[lo..hi])
  {
    forall i | 0 <= i < hi - lo - 1
      ensures !(s[lo..hi][i] == '_' && s[lo..hi][i + 1] == '_')
    {
      assert s[lo..hi][i] == s[lo + i] && s[lo..hi][i + 1] == s[lo + i + 1];
    }
  }

  /** Stage 6, `strip("_")`, keeps the absence of `__` and adds no character. */
  lemma StripUnderscoresKeeps(s: string)
    ensures NoDoubleUnderscore(s) ==> NoDoubleUnderscore(Strip(s, IsUnderscore))
    ensures forall c :: c in Strip(s, IsUnderscore) ==> c in s
  {
    var lo, hi := StripIsSlice(s, IsUnderscore);
    if NoDoubleUnderscore(s) {
      SliceKeepsNoDoubleUnderscore(s, lo, hi);
    }
    StripKeepsCharacters(s, IsUnderscore);
  }

  /** The base name used when nothing of the title survives. */
  const Fallback: string := "transcript"

  /** What `sanitize_filename` promises of its result: non-empty, made of
      safe characters, no `__`, no leading or trailing `_`. */
  predicate IsSafeName(s: string) {
    && |s| > 0
    && (forall c :: c in s ==> IsSafeChar(c))
    && NoDoubleUnderscore(s)
    && s[0] != '_' && s[|s| - 1] != '_'
  }

  /** The title after stages 1-5, before the edge underscores are stripped. */
  function Collapsed(title: string): (r: string)
    ensures forall c :: c in r ==> IsSafeChar(c)
    ensures NoDoubleUnderscore(r)
  {
    var decoded := DecodeEntities(title);
    var ascii := ToAscii(decoded);
    var spaced := UnderscoreWhitespace(ascii);
    var safe := Filter(spaced, IsSafeChar);
    FilterSound(spaced, IsSafeChar);
    CollapseUnderscores(safe)
  }

  /** The fallback name is itself a safe name. */
  lemma FallbackIsSafeName()
    ensures IsSafeName(Fallback)
  {
    forall c | c in Fallback ensures IsSafeChar(c) {
      var i :| 0 <= i < |Fallback| && Fallback[i] == c;
      assert 'a' <= Fallback[i] <= 'z';
    }
    assert NoDoubleUnderscore(Fallback) by {
      assert forall i :: 0 <= i < |Fallback| ==> Fallback[i] != '_';
    }
  }

  /** `sanitize_filename(title)`. */
  function SanitizeFilename(title: string): (r: string)
    ensures IsSafeName(r)
  {
    var collapsed := Collapsed(title);
    var stripped := Strip(collapsed, IsUnderscore);
    StripUnderscoresKeeps(collapsed);
    FallbackIsSafeName();
    if stripped == [] then Fallback else stripped
  }

  /** Stages 1-5 are each the identity on a safe name. */
  lemma CollapsedOfSafeName(s: string)
    requires IsSafeName(s)
    ensures Collapsed(s) == s
  {
    assert '&' !in s by { assert !IsSafeChar('&'); }
    assert DecodeEntities(s) == s;
    assert forall i :: 0 <= i < |s| ==> IsSafeChar(s[i]) by {
      assert forall i :: 0 <= i < |s| ==> s[i] in s;
    }
    assert ToAscii(s) == s;
    UnderscoreWhitespaceIdentity(s);
    FilterAll(s, IsSafeChar);
    assert CollapseUnderscores(s) == s;
  }

  /** Every safe name is left unchanged: each stage is the identity on it. */
  lemma SafeNameIsFixedPoint(s: string)
    requires IsSafeName(s)
    ensures SanitizeFilename(s) == s
  {
    CollapsedOfSafeName(s);
    assert Strip(s, IsUnderscore) == s;
  }

  /** `sanitize_filename` is idempotent. */
  lemma SanitizeIdempotent(title: string)
    ensures SanitizeFilename(SanitizeFilename(title)) == SanitizeFilename(title)
  {
    SafeNameIsFixedPoint(SanitizeFilename(title));
  }

  /** The strings `sanitize_filename` leaves unchanged are exactly the safe
      names, so its image is exactly the set of safe names. */
  lemma FixedPointsAreSafeNames(s: string)
    ensures SanitizeFilename(s) == s <==> IsSafeName(s)
  {
    if IsSafeName(s) {
      SafeNameIsFixedPoint(s);
    }
  }

  /** A title with nothing but symbols, underscores and whitespace (all of
      it ASCII, and no `&` that could start an entity) becomes
      `transcript`. */
  lemma NothingSurvivesGivesFallback(title: string)
    requires forall c :: c in title ==> IsAscii(c) && c != '&' && (c == '_' || !IsSafeChar(c))
    ensures SanitizeFilename(title) == Fallback
  {
    assert DecodeEntities(title) == title;
    assert ToAscii(title) == title;
    var spaced := UnderscoreWhitespace(title);
    UnderscoreWhitespaceKeeps(title);
    var safe := Filter(spaced, IsSafeChar);
    FilterSound(spaced, IsSafeChar);
    assert forall c :: c in safe ==> c == '_';
    var collapsed := CollapseUnderscores(safe);
    assert collapsed == Collapsed(title);
    assert forall i :: 0 <= i < |collapsed| ==> collapsed[i] in collapsed;
    assert Strip(collapsed, IsUnderscore) == [];
  }

  /** `!!!` has nothing that survives. */
  lemma OnlySymbolsExample()
    ensures SanitizeFilename("!!!") == "transcript"
  {
    NothingSurvivesGivesFallback("!!!");
  }

  /** A character that carries the title's content into the name: safe and
      not `_`. */
  predicate IsSignificant(c: char) {
    IsSafeChar(c) && c != '_'
  }

  /** Stripping the edge `_` and dropping every `_` leaves the content
      characters of the decoded, transliterated title. */
  lemma StrippedKeepsSignificant(title: string)
    ensures Filter(Strip(Collapsed(title), IsUnderscore), NotUnderscore)
         == Filter(ToAscii(DecodeEntities(title)), IsSignificant)
  {
    var t := ToAscii(DecodeEntities(title));
    var spaced := UnderscoreWhitespace(t);
    UnderscoreWhitespaceKeeps(t);
    var safe := Filter(spaced, IsSafeChar);
    var collapsed := CollapseUnderscores(safe);
    assert collapsed == Collapsed(title);
    FilterFilter(spaced, IsSafeChar, NotUnderscore, IsSignificant);
    FilterFilter(spaced, NotUnderscore, IsSafeChar, IsSignificant);
    FilterFilter(t, IsVisible, IsSafeChar, IsSignificant);
    FilterStrip(collapsed, IsUnderscore, NotUnderscore);
  }

  /** The content of the name: after entity decoding and transliteration,
      the letters, digits, `-` and `.` of the title all survive, in order,
      and nothing else but `_` is added; when there are none, the name is
      the fallback. */
  lemma SanitizeKeepsSignificant(title: string)
    ensures var t := ToAscii(DecodeEntities(title));
      && (Filter(t, IsSignificant) == [] ==> SanitizeFilename(title) == Fallback)
      && (Filter(t, IsSignificant) != [] ==> Filter(SanitizeFilename(title), NotUnderscore) == Filter(t, IsSignificant))
  {
    var t := ToAscii(DecodeEntities(title));
    var stripped := Strip(Collapsed(title), IsUnderscore);
    StrippedKeepsSignificant(title);
    if Filter(t, IsSignificant) == [] {
      FilterEmpty(stripped, NotUnderscore);
      assert stripped == [];
    } else {
      assert stripped != [];
    }
  }

  /** For an ASCII title without `&`, the name's non-`_` characters are
      exactly the title's letters, digits, `-` and `.`, in order. */
  lemma AsciiTitleKeepsSignificant(title: string)
    requires AllAscii(title) && '&' !in title
    requires Filter(title, IsSignificant) != []
    ensures Filter(SanitizeFilename(title), NotUnderscore) == Filter(title, IsSignificant)
  {
    SanitizeKeepsSignificant(title);
  }

  /** A word of a title: non-empty, and made of characters that carry
      content into the name. */
  predicate IsWord(w: string) {
    w != [] && forall i :: 0 <= i < |w| ==> IsSignificant(w[i])
  }

  /** A content character is not whitespace. */
  lemma SignificantIsNotSpace(c: char)
    requires IsSignificant(c)
    ensures !IsSpace(c)
  {
  }

  /** A word holds no whitespace. */
  lemma WordHasNoSpace(w: string)
    requires IsWord(w)
    ensures forall i :: 0 <= i < |w| ==> !IsSpace(w[i])
  {
    forall i | 0 <= i < |w| ensures !IsSpace(w[i]) {
      SignificantIsNotSpace(w[i]);
    }
  }

  /** A word is a safe name. */
  lemma WordIsSafeName(w: string)
    requires IsWord(w)
    ensures IsSafeName(w)
  {
    forall c | c in w ensures IsSafeChar(c) {
      var i :| 0 <= i < |w| && w[i] == c;
    }
  }

  /** A title that starts with a content character still starts with it
      after each of stages 1-4. */
  lemma StagesKeepFirst(s: string)
    requires s != [] && IsSignificant(s[0])
    ensures var d := DecodeEntities(s); d != [] && d[0] == s[0]
    ensures var a := ToAscii(DecodeEntities(s)); a != [] && a[0] == s[0]
    ensures var u := UnderscoreWhitespace(ToAscii(DecodeEntities(s))); u != [] && u[0] == s[0]
    ensures var f := Filter(UnderscoreWhitespace(ToAscii(DecodeEntities(s))), IsSafeChar); f != [] && f[0] == s[0]
  {
    var head := [s[0]];
    assert s == head + s[1..];
    DecodePrefix(head, s[1..]);
    var d := DecodeEntities(s[1..]);
    FlatMapConcat(head, d, AsciiOf);
    FlatMapIdentity(head, AsciiOf);
    var a := ToAscii(d);
    assert ToAscii(DecodeEntities(s)) == head + a;
    UnderscoreWhitespacePrefix(head, a);
    FilterConcat(head, UnderscoreWhitespace(a), IsSafeChar);
  }

  /** Stages 1 and 2 copy an ASCII prefix without `&` unchanged. */
  lemma AsciiPrefix(front: string, rest: string)
    requires forall i :: 0 <= i < |front| ==> front[i] != '&' && IsAscii(front[i])
    ensures ToAscii(DecodeEntities(front + rest)) == front + ToAscii(DecodeEntities(rest))
  {
    DecodePrefix(front, rest);
    FlatMapConcat(front, DecodeEntities(rest), AsciiOf);
    assert ToAscii(front) == front;
  }

  /** Stages 1-3 for one word: a word, a run of ASCII whitespace and a rest
      that starts with a content character give the word, one `_`, and
      what the rest gives. */
  lemma SpacedAfterWord(w: string, ws: string, rest: string)
    requires IsWord(w)
    requires ws != [] && forall i :: 0 <= i < |ws| ==> IsSpace(ws[i]) && IsAscii(ws[i])
    requires rest != [] && IsSignificant(rest[0])
    ensures UnderscoreWhitespace(ToAscii(DecodeEntities(w + ws + rest)))
         == w + "_" + UnderscoreWhitespace(ToAscii(DecodeEntities(rest)))
  {
    var front := w + ws;
    assert forall i :: 0 <= i < |front| ==> front[i] != '&' && IsAscii(front[i]) by {
      forall i | 0 <= i < |front| ensures front[i] != '&' && IsAscii(front[i]) {
        if i < |w| {
          assert front[i] == w[i];
        } else {
          assert front[i] == ws[i - |w|];
        }
      }
    }
    var a := ToAscii(DecodeEntities(rest));
    assert ToAscii(DecodeEntities(w + ws + rest)) == w + ws + a by {
      AsciiPrefix(front, rest);
    }
    assert UnderscoreWhitespace(w + ws + a) == w + "_" + UnderscoreWhitespace(a) by {
      assert a != [] && !IsSpace(a[0]) by {
        StagesKeepFirst(rest);
        SignificantIsNotSpace(rest[0]);
      }
      WordHasNoSpace(w);
      UnderscoreWhitespaceSplit(w, ws, a);
    }
  }

  /** The law of stages 1-5 for one word: a word, a run of ASCII whitespace
      and a rest that starts with a content character give the word, one
      `_`, and what the rest gives. */
  lemma CollapsedAfterWord(w: string, ws: string, rest: string)
    requires IsWord(w)
    requires ws != [] && forall i :: 0 <= i < |ws| ==> IsSpace(ws[i]) && IsAscii(ws[i])
    requires rest != [] && IsSignificant(rest[0])
    ensures Collapsed(w + ws + rest) == w + "_" + Collapsed(rest)
  {
    SpacedAfterWord(w, ws, rest);
    StagesKeepFirst(rest);
    var u := UnderscoreWhitespace(ToAscii(DecodeEntities(rest)));
    var joint := w + "_";
    assert forall i :: 0 <= i < |joint| ==> IsSafeChar(joint[i]) by {
      forall i | 0 <= i < |joint| ensures IsSafeChar(joint[i]) {
        if i < |w| {
          assert joint[i] == w[i];
        }
      }
    }
    FilterAll(joint, IsSafeChar);
    FilterConcat(joint, u, IsSafeChar);
    var f := Filter(u, IsSafeChar);
    CollapseSplit(w, "_", f);
  }

  /** Stages 1-5 turn words separated by single spaces into the same words
      separated by single `_`. */
  lemma {:induction false} CollapsedWords(words: seq<string>)
    requires |words| > 0 && forall k :: 0 <= k < |words| ==> IsWord(words[k])
    ensures Collapsed(Join(words, " ")) == Join(words, "_")
  {
    if |words| == 1 {
      WordIsSafeName(words[0]);
      CollapsedOfSafeName(words[0]);
    } else {
      var rest := words[1..];
      assert forall k :: 0 <= k < |rest| ==> rest[k] == words[k + 1];
      CollapsedWords(rest);
      JoinHead(rest, " ");
      assert IsWord(rest[0]);
      CollapsedAfterWord(words[0], " ", Join(rest, " "));
    }
  }

  /** A reference reading of the sanitizer: for a title of words separated
      by single spaces, the name is the words separated by `_`. */
  lemma SanitizeWords(words: seq<string>)
    requires |words| > 0 && forall k :: 0 <= k < |words| ==> IsWord(words[k])
    ensures SanitizeFilename(Join(words, " ")) == Join(words, "_")
  {
    CollapsedWords(words);
    var j := Join(words, "_");
    var last := words[|words| - 1];
    assert IsWord(words[0]) && IsWord(last);
    JoinHead(words, "_");
    JoinLast(words, "_");
    assert Strip(j, IsUnderscore) == j;
  }

  /** A prefix without `&` whose transliteration holds no whitespace and
      no `_` goes through stages 1-5 on its own: it contributes its safe
      characters, and the rest of the title is processed as if alone. */
  lemma CollapsedAfterPlainPrefix(p: string, b: string)
    requires forall i :: 0 <= i < |p| ==> p[i] != '&'
    requires forall i :: 0 <= i < |ToAscii(p)| ==> !IsSpace(ToAscii(p)[i]) && ToAscii(p)[i] != '_'
    ensures Collapsed(p + b) == Filter(ToAscii(p), IsSafeChar) + Collapsed(b)
  {
    assert '&' !in p;
    DecodePrefix(p, b);
    var d := DecodeEntities(b);
    FlatMapConcat(p, d, AsciiOf);
    var q, a := ToAscii(p), ToAscii(d);
    UnderscoreWhitespacePrefix(q, a);
    var u := UnderscoreWhitespace(a);
    FilterConcat(q, u, IsSafeChar);
    var fq := Filter(q, IsSafeChar);
    FilterSound(q, IsSafeChar);
    assert forall i :: 0 <= i < |fq| ==> fq[i] != '_' by {
      forall i | 0 <= i < |fq| ensures fq[i] != '_' {
        assert fq[i] in q;
      }
    }
    CollapsePrefix(fq, Filter(u, IsSafeChar));
  }

  /** A word at the front is kept as it is. */
  lemma CollapsedAfterWordPiece(w: string, b: string)
    requires IsWord(w)
    ensures Collapsed(w + b) == w + Collapsed(b)
  {
    assert AllAscii(w) && ToAscii(w) == w;
    CollapsedAfterPlainPrefix(w, b);
    FilterAll(w, IsSafeChar);
  }

  /** ASCII symbols other than `&`, whitespace and the safe characters:
      what stage 4 drops. */
  predicate IsDropped(z: string) {
    forall i :: 0 <= i < |z| ==> IsAscii(z[i]) && z[i] != '&' && !IsSpace(z[i]) && !IsSafeChar(z[i])
  }

  /** Dropped symbols at the front leave no trace. */
  lemma CollapsedAfterDropped(z: string, b: string)
    requires IsDropped(z)
    ensures Collapsed(z + b) == Collapsed(b)
  {
    assert AllAscii(z) && ToAscii(z) == z;
    CollapsedAfterPlainPrefix(z, b);
    FilterEmpty(z, IsSafeChar);
  }

  /** A character that transliterates to one content character is replaced
      by it. */
  lemma CollapsedAfterTransliterated(c: char, d: char, b: string)
    requires c != '&' && AsciiOf(c) == [d] && IsSignificant(d)
    ensures Collapsed([c] + b) == [d] + Collapsed(b)
  {
    assert ToAscii([c]) == [d] by {
      assert [c][1..] == [];
      assert FlatMap([c], AsciiOf) == AsciiOf(c) + FlatMap([], AsciiOf);
      assert [d] + [] == [d];
    }
    CollapsedAfterPlainPrefix([c], b);
    FilterAll([d], IsSafeChar);
  }

  /** Stages 1-3 for a leading whitespace run before a content character. */
  lemma SpacedAfterSpace(ws: string, rest: string)
    requires ws != [] && forall i :: 0 <= i < |ws| ==> IsSpace(ws[i]) && IsAscii(ws[i])
    requires rest != [] && IsSignificant(rest[0])
    ensures UnderscoreWhitespace(ToAscii(DecodeEntities(ws + rest)))
         == "_" + UnderscoreWhitespace(ToAscii(DecodeEntities(rest)))
  {
    AsciiPrefix(ws, rest);
    StagesKeepFirst(rest);
    UnderscoreWhitespaceRun(ws, ToAscii(DecodeEntities(rest)));
  }

  /** A leading run of ASCII whitespace before a content character becomes
      one `_`. */
  lemma CollapsedAfterSpace(ws: string, rest: string)
    requires ws != [] && forall i :: 0 <= i < |ws| ==> IsSpace(ws[i]) && IsAscii(ws[i])
    requires rest != [] && IsSignificant(rest[0])
    ensures Collapsed(ws + rest) == "_" + Collapsed(rest)
  {
    SpacedAfterSpace(ws, rest);
    StagesKeepFirst(rest);
    var u := UnderscoreWhitespace(ToAscii(DecodeEntities(rest)));
    FilterConcat("_", u, IsSafeChar);
    FilterAll("_", IsSafeChar);
    CollapseRun("_", Filter(u, IsSafeChar));
  }

  /** A word, a space, a word and trailing dropped symbols. */
  lemma SecondWordCollapsed(w3: string, w4: string, z: string)
    requires IsWord(w3) && IsWord(w4) && IsDropped(z)
    ensures Collapsed(w3 + (" " + (w4 + z))) == w3 + ("_" + w4)
  {
    var r7 := w4 + z;
    assert Collapsed(r7) == w4 by {
      CollapsedAfterWordPiece(w4, z);
      CollapsedAfterDropped(z, []);
      assert z + [] == z;
      assert Collapsed([]) == [];
    }
    assert Collapsed(" " + r7) == "_" + w4 by {
      assert r7[0] == w4[0];
      CollapsedAfterSpace(" ", r7);
    }
    CollapsedAfterWordPiece(w3, " " + r7);
  }

  /** Stages 1-5 for a title shaped like `François's Talk!!`. */
  lemma TransliteratedCollapsed(w1: string, c: char, d: char, w2: string, x: char, w3: string, w4: string, z: string)
    requires IsWord(w1) && IsWord(w2) && IsWord(w3) && IsWord(w4)
    requires c != '&' && AsciiOf(c) == [d] && IsSignificant(d)
    requires IsDropped([x]) && IsDropped(z)
    ensures Collapsed(w1 + ([c] + (w2 + ([x] + (w3 + (" " + (w4 + z)))))))
         == w1 + ([d] + (w2 + (w3 + ("_" + w4))))
  {
    var r5 := w3 + (" " + (w4 + z));
    var tail := w3 + ("_" + w4);
    SecondWordCollapsed(w3, w4, z);
    var r4 := [x] + r5;
    assert Collapsed(r4) == tail by {
      CollapsedAfterDropped([x], r5);
    }
    var r3 := w2 + r4;
    assert Collapsed(r3) == w2 + tail by {
      CollapsedAfterWordPiece(w2, r4);
    }
    var r2 := [c] + r3;
    assert Collapsed(r2) == [d] + (w2 + tail) by {
      CollapsedAfterTransliterated(c, d, r3);
    }
    CollapsedAfterWordPiece(w1, r2);
  }

  /** Transliteration, dropped symbols and a space together: a title shaped
      like `François's Talk!!` keeps its words, transliterates the
      accented letter, drops the symbols and joins the two halves with
      `_`. */
  lemma TransliteratedTitle(w1: string, c: char, d: char, w2: string, x: char, w3: string, w4: string, z: string)
    requires IsWord(w1) && IsWord(w2) && IsWord(w3) && IsWord(w4)
    requires c != '&' && AsciiOf(c) == [d] && IsSignificant(d)
    requires IsDropped([x]) && IsDropped(z)
    ensures SanitizeFilename(w1 + ([c] + (w2 + ([x] + (w3 + (" " + (w4 + z)))))))
         == w1 + ([d] + (w2 + (w3 + ("_" + w4))))
  {
    var name := w1 + ([d] + (w2 + (w3 + ("_" + w4))));
    TransliteratedCollapsed(w1, c, d, w2, x, w3, w4, z);
    assert name[0] == w1[0] && name[|name| - 1] == w4[|w4| - 1];
    assert Strip(name, IsUnderscore) == name;
  }

  /** Stage 1 for `<word> &amp; <word>`. */
  lemma AmpersandDecoded(a: string, b: string)
    requires IsWord(a) && IsWord(b)
    ensures DecodeEntities(a + " " + "&amp;" + (" " + b)) == a + " " + "&" + (" " + b)
  {
    var tail := " " + b;
    assert '&' !in a + " " && '&' !in tail by {
      assert forall i :: 0 <= i < |b| ==> b[i] != '&';
      assert forall i :: 0 <= i < |a| ==> a[i] != '&';
    }
    assert !StartsWith(tail, "lt;") && !StartsWith(tail, "gt;") && !StartsWith(tail, "#39;") by {
      assert tail[0] == ' ';
    }
    DecodeAmpersand(a + " ", tail);
  }

  /** Stages 2-3 for `<word> & <word>`. */
  lemma AmpersandSpaced(a: string, b: string)
    requires IsWord(a) && IsWord(b)
    ensures UnderscoreWhitespace(ToAscii(a + " " + "&" + (" " + b))) == a + "_" + ("&" + "_" + b)
  {
    var d := a + " " + ("&" + " " + b);
    assert a + " " + "&" + (" " + b) == d;
    assert ToAscii(d) == d by {
      assert AllAscii(d) by {
        forall i | 0 <= i < |d| ensures IsAscii(d[i]) {
          if i < |a| {
            assert d[i] == a[i];
          } else if i > |a| + 2 {
            assert d[i] == b[i - |a| - 3];
          }
        }
      }
    }
    assert UnderscoreWhitespace(b) == b by {
      UnderscoreWhitespaceIdentity(b);
    }
    assert UnderscoreWhitespace("&" + " " + b) == "&" + "_" + b by {
      UnderscoreWhitespaceSplit("&", " ", b);
    }
    assert UnderscoreWhitespace(d) == a + "_" + UnderscoreWhitespace("&" + " " + b) by {
      UnderscoreWhitespaceSplit(a, " ", "&" + " " + b);
    }
  }

  /** Stage 4 for `<word>_&_<word>`: the `&` is dropped. */
  lemma AmpersandFiltered(a: string, b: string)
    requires IsWord(a) && IsWord(b)
    ensures Filter(a + "_" + ("&" + "_" + b), IsSafeChar) == a + "__" + b
  {
    var head := a + "_";
    assert Filter(head, IsSafeChar) == head by {
      forall i | 0 <= i < |head| ensures IsSafeChar(head[i]) {
        if i < |a| {
          assert head[i] == a[i];
        }
      }
      FilterAll(head, IsSafeChar);
    }
    assert Filter("&" + "_" + b, IsSafeChar) == "_" + b by {
      FilterAll(b, IsSafeChar);
      FilterConcat("&" + "_", b, IsSafeChar);
      assert Filter("&" + "_", IsSafeChar) == "_";
    }
    FilterConcat(head, "&" + "_" + b, IsSafeChar);
    assert (a + "_") + ("_" + b) == a + "__" + b;
  }

  /** Stages 1-5 for `<word> &amp; <word>`. */
  lemma AmpersandCollapsed(a: string, b: string)
    requires IsWord(a) && IsWord(b)
    ensures Collapsed(a + " " + "&amp;" + (" " + b)) == a + "_" + b
  {
    AmpersandDecoded(a, b);
    AmpersandSpaced(a, b);
    AmpersandFiltered(a, b);
    assert CollapseUnderscores(a + "__" + b) == a + "_" + b by {
      CollapseSplit(a, "__", b);
      assert CollapseUnderscores(b) == b;
    }
  }

  /** `&amp;` between two words is decoded to `&`, which stage 4 drops,
      and the two `_` around it collapse into one: the name is the two
      words joined by `_`. */
  lemma AmpersandBetweenWords(a: string, b: string)
    requires IsWord(a) && IsWord(b)
    ensures SanitizeFilename(a + " " + "&amp;" + (" " + b)) == a + "_" + b
  {
    AmpersandCollapsed(a, b);
    assert Collapsed(a + " " + b) == a + "_" + b by {
      CollapsedAfterWord(a, " ", b);
      WordIsSafeName(b);
      CollapsedOfSafeName(b);
    }
    assert SanitizeFilename(a + " " + b) == a + "_" + b by {
      SanitizeWords([a, b]);
      assert [a, b][1..] == [b];
    }
  }

  /** `a b` becomes `a_b`. */
  lemma SpaceExample()
    ensures SanitizeFilename("a b") == "a_b"
  {
    var words := ["a", "b"];
    assert words[1..] == ["b"];
    assert Join(words, " ") == "a b";
    assert Join(words, "_") == "a_b";
    SanitizeWords(words);
  }

  /** Eight words separated by spaces: each space becomes `_`. */
  lemma EightWords(a: string, b: string, c: string, d: string, e: string, f: string, g: string, h: string)
    requires IsWord(a) && IsWord(b) && IsWord(c) && IsWord(d)
    requires IsWord(e) && IsWord(f) && IsWord(g) && IsWord(h)
    ensures SanitizeFilename(a + " " + (b + " " + (c + " " + d)) + " " + (e + " " + (f + " " + (g + " " + h))))
         == a + "_" + (b + "_" + (c + "_" + d)) + "_" + (e + "_" + (f + "_" + (g + "_" + h)))
  {
    var front, back := [a, b, c, d], [e, f, g, h];
    var words := front + back;
    assert forall k :: 0 <= k < |words| ==> IsWord(words[k]);
    assert Join(words, " ") == Join(front, " ") + " " + Join(back, " ") by {
      JoinAppend(front, back, " ");
    }
    assert Join(words, "_") == Join(front, "_") + "_" + Join(back, "_") by {
      JoinAppend(front, back, "_");
    }
    JoinFour(a, b, c, d, " ");
    JoinFour(e, f, g, h, " ");
    JoinFour(a, b, c, d, "_");
    JoinFour(e, f, g, h, "_");
    SanitizeWords(words);
  }

  /** The title, cut into its eight words. */
  lemma RickTitleWords()
    ensures "Rick" + " " + ("Astley" + " " + ("-" + " " + "Never")) + " " + ("Gonna" + " " + ("Give" + " " + ("You" + " " + "Up")))
         == "Rick Astley - Never Gonna Give You Up"
  {
  }

  /** The expected name, cut into the same eight words. */
  lemma RickNameWords()
    ensures "Rick" + "_" + ("Astley" + "_" + ("-" + "_" + "Never")) + "_" + ("Gonna" + "_" + ("Give" + "_" + ("You" + "_" + "Up")))
         == "Rick_Astley_-_Never_Gonna_Give_You_Up"
  {
  }

  /** Hyphens are kept and each space becomes `_`. */
  lemma RickAstleyExample()
    ensures SanitizeFilename("Rick Astley - Never Gonna Give You Up") == "Rick_Astley_-_Never_Gonna_Give_You_Up"
  {
    RickTitleWords();
    RickNameWords();
    assert IsWord("Rick") && IsWord("Astley") && IsWord("-") && IsWord("Never");
    assert IsWord("Gonna") && IsWord("Give") && IsWord("You") && IsWord("Up");
    EightWords("Rick", "Astley", "-", "Never", "Gonna", "Give", "You", "Up");
  }

  /** The instance of SanitizeWords for three words. */
  lemma ThreeWords(a: string, b: string, c: string)
    requires IsWord(a) && IsWord(b) && IsWord(c)
    ensures SanitizeFilename(a + " " + (b + " " + c)) == a + "_" + (b + "_" + c)
  {
    var words := [a, b, c];
    assert words[1..] == [b, c];
    assert [b, c][1..] == [c];
    assert Join([b, c], " ") == b + " " + c;
    assert Join([b, c], "_") == b + "_" + c;
    assert Join(words, " ") == a + " " + (b + " " + c);
    assert Join(words, "_") == a + "_" + (b + "_" + c);
    SanitizeWords(words);
  }

  /** Each space of a plain three-word title becomes `_`. */
  lemma BosnianExample()
    ensures SanitizeFilename("Neka Bosnian Video") == "Neka_Bosnian_Video"
  {
    assert "Neka" + " " + ("Bosnian" + " " + "Video") == "Neka Bosnian Video";
    assert "Neka" + "_" + ("Bosnian" + "_" + "Video") == "Neka_Bosnian_Video";
    assert IsWord("Neka") && IsWord("Bosnian") && IsWord("Video");
    ThreeWords("Neka", "Bosnian", "Video");
  }

  /** `&amp;` is decoded to `&`, which stage 4 then drops, and the two `_`
      around it collapse into one. */
  lemma EntityExample()
    ensures SanitizeFilename("Tom &amp; Jerry") == "Tom_Jerry"
  {
    assert "Tom" + " " + "&amp;" + (" " + "Jerry") == "Tom &amp; Jerry";
    assert "Tom" + "_" + "Jerry" == "Tom_Jerry";
    assert IsWord("Tom") && IsWord("Jerry");
    AmpersandBetweenWords("Tom", "Jerry");
  }

  /** `ç` is transliterated to `c`, the apostrophe and the exclamation marks
      are dropped, and the space becomes `_`. */
  lemma TransliterationExample()
    ensures SanitizeFilename("François's Talk!!") == "Francoiss_Talk"
  {
    assert "Fran" + (['ç'] + ("ois" + (['\''] + ("s" + (" " + ("Talk" + "!!")))))) == "François's Talk!!";
    assert "Fran" + (['c'] + ("ois" + ("s" + ("_" + "Talk")))) == "Francoiss_Talk";
    assert IsWord("Fran") && IsWord("ois") && IsWord("s") && IsWord("Talk");
    assert AsciiOf('ç') == ['c'];
    assert IsDropped(['\'']) && IsDropped("!!");
    TransliteratedTitle("Fran", 'ç', 'c', "ois", '\'', "s", "Talk", "!!");
  }
}
