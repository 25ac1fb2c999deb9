/** The pieces of Python's `str` behaviour that the downloader relies on,
    restated over `seq<char>`. */
module Strings {

  /** Python's `str.isspace()`, which is also what `\s` matches in a `str`
      regular expression: ASCII 0x09-0x0D and 0x1C-0x20, and the Unicode
      separators and spaces. */
  predicate IsSpace(c: char) {
    || ('\t' <= c <= '\r')
    || ('\U{1C}' <= c <= ' ')
    || c == '\U{85}' || c == '\U{A0}' || c == '\U{1680}'
    || ('\U{2000}' <= c <= '\U{200A}')
    || c == '\U{2028}' || c == '\U{2029}' || c == '\U{202F}' || c == '\U{205F}'
    || c == '\U{3000}'
  }

  predicate IsAscii(c: char) {
    c < '\U{80}'
  }

  predicate AllAscii(s: string) {
    forall i :: 0 <= i < |s| ==> IsAscii(s[i])
  }

  predicate IsDigit(c: char) {
    '0' <= c <= '9'
  }

  predicate AllDigits(s: string) {
    forall i :: 0 <= i < |s| ==> IsDigit(s[i])
  }

  /** The characters of `s` that satisfy `keep`, in their original order. */
  function Filter(s: string, keep: char -> bool): (r: string)
    ensures |r| <= |s|
  {
    if s == [] then []
    else (if keep(s[0]) then [s[0]] else []) + Filter(s[1..], keep)
  }

  /** Filtering keeps only characters of `s` that satisfy `keep`. */
  lemma {:induction false} FilterSound(s: string, keep: char -> bool)
    ensures forall c :: c in Filter(s, keep) ==> keep(c) && c in s
  {
    if s != [] {
      FilterSound(s[1..], keep);
    }
  }

  /** Filtering is the identity when every character is kept. */
  lemma {:induction false} FilterAll(s: string, keep: char -> bool)
    requires forall i :: 0 <= i < |s| ==> keep(s[i])
    ensures Filter(s, keep) == s
  {
    if s != [] {
      assert forall i :: 0 <= i < |s| - 1 ==> s[1..][i] == s[i + 1];
      FilterAll(s[1..], keep);
    }
  }

  /** Filtering distributes over concatenation. */
  lemma {:induction false} FilterConcat(a: string, b: string, keep: char -> bool)
    ensures Filter(a + b, keep) == Filter(a, keep) + Filter(b, keep)
  {
    if a == [] {
      assert a + b == b;
    } else {
      var head := if keep(a[0]) then [a[0]] else [];
      var tail := a[1..];
      assert Filter(a + b, keep) == head + Filter(tail + b, keep) by {
        assert (a + b)[0] == a[0] && (a + b)[1..] == tail + b;
      }
      FilterConcat(tail, b, keep);
      var x, y := Filter(tail, keep), Filter(b, keep);
      assert head + (x + y) == (head + x) + y;
    }
  }

  /** Filtering twice is filtering once by both conditions. */
  lemma {:induction false} FilterFilter(s: string, first: char -> bool, second: char -> bool, both: char -> bool)
    requires forall c :: both(c) == (first(c) && second(c))
    ensures Filter(Filter(s, first), second) == Filter(s, both)
  {
    if s != [] {
      var head := if first(s[0]) then [s[0]] else [];
      FilterConcat(head, Filter(s[1..], first), second);
      FilterFilter(s[1..], first, second, both);
    }
  }

  /** Nothing survives filtering exactly when no character is kept. */
  lemma {:induction false} FilterEmpty(s: string, keep: char -> bool)
    ensures Filter(s, keep) == [] <==> forall i :: 0 <= i < |s| ==> !keep(s[i])
  {
    if s != [] {
      FilterEmpty(s[1..], keep);
      assert forall i :: 1 <= i < |s| ==> s[i] == s[1..][i - 1];
    }
  }

  /** The strings `f` gives for the characters of `s`, in order,
      concatenated. */
  function FlatMap(s: string, f: char -> string): string {
    if s == [] then [] else f(s[0]) + FlatMap(s[1..], f)
  }

  /** `FlatMap` distributes over concatenation. */
  lemma {:induction false} FlatMapConcat(a: string, b: string, f: char -> string)
    ensures FlatMap(a + b, f) == FlatMap(a, f) + FlatMap(b, f)
  {
    if a == [] {
      assert a + b == b;
    } else {
      assert (a + b)[0] == a[0] && (a + b)[1..] == a[1..] + b;
      FlatMapConcat(a[1..], b, f);
      var head, x, y := f(a[0]), FlatMap(a[1..], f), FlatMap(b, f);
      assert head + (x + y) == (head + x) + y;
    }
  }

  /** `FlatMap` is the identity when `f` maps each character of `s` to
      itself. */
  lemma {:induction false} FlatMapIdentity(s: string, f: char -> string)
    ensures (forall i :: 0 <= i < |s| ==> f(s[i]) == [s[i]]) ==> FlatMap(s, f) == s
  {
    if s != [] && forall i :: 0 <= i < |s| ==> f(s[i]) == [s[i]] {
      assert forall i :: 0 <= i < |s| - 1 ==> s[1..][i] == s[i + 1];
      FlatMapIdentity(s[1..], f);
      assert s == [s[0]] + s[1..];
    }
  }

  /** `FlatMap` of a function with ASCII results is ASCII. */
  lemma {:induction false} FlatMapAscii(s: string, f: char -> string)
    requires forall c :: AllAscii(f(c))
    ensures AllAscii(FlatMap(s, f))
  {
    if s != [] {
      FlatMapAscii(s[1..], f);
      var head, rest := f(s[0]), FlatMap(s[1..], f);
      assert forall i :: 0 <= i < |head + rest| ==>
        (head + rest)[i] == if i < |head| then head[i] else rest[i - |head|];
    }
  }

  /** Drops the leading characters that satisfy `drop`. */
  function TrimLeft(s: string, drop: char -> bool): (r: string)
    ensures |r| <= |s| && r == s[|s| - |r|..]
    ensures forall i :: 0 <= i < |s| - |r| ==> drop(s[i])
    ensures r == [] || !drop(r[0])
  {
    if s != [] && drop(s[0]) then TrimLeft(s[1..], drop) else s
  }

  /** Drops the trailing characters that satisfy `drop`. */
  function TrimRight(s: string, drop: char -> bool): (r: string)
    ensures |r| <= |s| && r == s[..|r|]
    ensures forall i :: |r| <= i < |s| ==> drop(s[i])
    ensures r == [] || !drop(r[|r| - 1])
  {
    if s != [] && drop(s[|s| - 1]) then TrimRight(s[..|s| - 1], drop) else s
  }

  /** Python's `s.strip(chars)` (and `s.strip()` with `drop` = `IsSpace`):
      what is left of `s` after removing the characters satisfying `drop`
      at both ends. */
  function Strip(s: string, drop: char -> bool): (r: string)
    ensures r == [] || (!drop(r[0]) && !drop(r[|r| - 1]))
    ensures (s == [] || (!drop(s[0]) && !drop(s[|s| - 1]))) ==> r == s
    ensures r == [] <==> forall i :: 0 <= i < |s| ==> drop(s[i])
  {
    TrimRight(TrimLeft(s, drop), drop)
  }

  /** Trimming characters that a filter drops anyway changes nothing after
      the filter. */
  lemma {:induction false} FilterTrimLeft(s: string, drop: char -> bool, keep: char -> bool)
    requires forall c :: drop(c) ==> !keep(c)
    ensures Filter(TrimLeft(s, drop), keep) == Filter(s, keep)
  {
    if s != [] && drop(s[0]) {
      FilterTrimLeft(s[1..], drop, keep);
    }
  }

  lemma {:induction false} FilterTrimRight(s: string, drop: char -> bool, keep: char -> bool)
    requires forall c :: drop(c) ==> !keep(c)
    ensures Filter(TrimRight(s, drop), keep) == Filter(s, keep)
  {
    if s != [] && drop(s[|s| - 1]) {
      var front := s[..|s| - 1];
      FilterTrimRight(front, drop, keep);
      assert s == front + [s[|s| - 1]];
      FilterConcat(front, [s[|s| - 1]], keep);
    }
  }

  lemma FilterStrip(s: string, drop: char -> bool, keep: char -> bool)
    requires forall c :: drop(c) ==> !keep(c)
    ensures Filter(Strip(s, drop), keep) == Filter(s, keep)
  {
    FilterTrimLeft(s, drop, keep);
    FilterTrimRight(TrimLeft(s, drop), drop, keep);
  }

  /** What `Strip` leaves is the slice `s[lo..hi]`, and only characters
      satisfying `drop` were removed. */
  lemma StripIsSlice(s: string, drop: char -> bool) returns (lo: nat, hi: nat)
    ensures lo <= hi <= |s| && Strip(s, drop) == s[lo..hi]
    ensures forall i :: 0 <= i < lo ==> drop(s[i])
    ensures forall i :: hi <= i < |s| ==> drop(s[i])
  {
    var left := TrimLeft(s, drop);
    var r := TrimRight(left, drop);
    lo := |s| - |left|;
    hi := lo + |r|;
    assert r == s[lo..hi];
    forall i | hi <= i < |s| ensures drop(s[i]) {
      assert s[i] == left[i - lo];
    }
  }

  /** `Strip` adds no character. */
  lemma StripKeepsCharacters(s: string, drop: char -> bool)
    ensures forall c :: c in Strip(s, drop) ==> c in s
  {
    var lo, hi := StripIsSlice(s, drop);
    forall c | c in s[lo..hi] ensures c in s {
      var i :| 0 <= i < hi - lo && s[lo..hi][i] == c;
      assert s[lo + i] == c;
    }
  }

  /** Python's `sep.join(parts)`. */
  function Join(parts: seq<string>, sep: string): string {
    if |parts| == 0 then []
    else if |parts| == 1 then parts[0]
    else parts[0] + sep + Join(parts[1..], sep)
  }

  /** Re-bracketing a concatenation that starts with one character. */
  lemma ConsAppend(c: char, x: string, y: string)
    ensures [c] + (x + y) == ([c] + x) + y
  {
  }

  /** Joining four parts. */
  lemma JoinFour(a: string, b: string, c: string, d: string, sep: string)
    ensures Join([a, b, c, d], sep) == a + sep + (b + sep + (c + sep + d))
  {
    assert [a, b, c, d][1..] == [b, c, d];
    assert [b, c, d][1..] == [c, d];
    assert [c, d][1..] == [d];
    assert Join([c, d], sep) == c + sep + d;
    assert Join([b, c, d], sep) == b + sep + (c + sep + d);
  }

  /** Joining two non-empty lists of parts one after the other is joining
      each and putting the separator between. */
  lemma {:induction false} JoinAppend(x: seq<string>, y: seq<string>, sep: string)
    requires x != [] && y != []
    ensures Join(x + y, sep) == Join(x, sep) + sep + Join(y, sep)
    decreases |x|
  {
    if |x| > 1 {
      assert (x + y)[1..] == x[1..] + y;
      JoinAppend(x[1..], y, sep);
    } else {
      assert (x + y)[1..] == y;
    }
  }

  /** A non-empty first part gives the joined string its first character. */
  lemma JoinHead(parts: seq<string>, sep: string)
    requires |parts| > 0 && parts[0] != []
    ensures Join(parts, sep) != [] && Join(parts, sep)[0] == parts[0][0]
  {
  }

  /** A non-empty last part gives the joined string its last character. */
  lemma {:induction false} JoinLast(parts: seq<string>, sep: string)
    requires |parts| > 0 && parts[|parts| - 1] != []
    ensures var j := Join(parts, sep); var last := parts[|parts| - 1];
      j != [] && j[|j| - 1] == last[|last| - 1]
  {
    if |parts| > 1 {
      JoinLast(parts[1..], sep);
      assert parts[1..][|parts| - 2] == parts[|parts| - 1];
    }
  }

  /** A property of every character of the parts and of the separator holds
      of every character of the joined string. */
  lemma {:induction false} JoinKeeps(parts: seq<string>, sep: string, p: char -> bool)
    requires forall c :: c in sep ==> p(c)
    requires forall k :: 0 <= k < |parts| ==> forall c :: c in parts[k] ==> p(c)
    ensures forall c :: c in Join(parts, sep) ==> p(c)
  {
    if |parts| > 1 {
      JoinKeeps(parts[1..], sep, p);
      assert parts[0] in parts;
    }
  }

  /** `s` begins with `prefix`. */
  predicate StartsWith(s: string, prefix: string) {
    |prefix| <= |s| && s[..|prefix|] == prefix
  }

  /** Position of the first `c` in `s`. */
  function IndexOf(s: string, c: char): (i: nat)
    requires c in s
    ensures i < |s| && s[i] == c && c !in s[..i]
  {
    if s[0] == c then 0 else 1 + IndexOf(s[1..], c)
  }

  /** Python's `s.split(sep)` for a one-character separator. */
  function Split(s: string, sep: char): (r: seq<string>)
    ensures |r| > 0
    ensures forall k :: 0 <= k < |r| ==> sep !in r[k]
    decreases |s|
  {
    if sep !in s then [s]
    else
      var i := IndexOf(s, sep);
      [s[..i]] + Split(s[i + 1..], sep)
  }

  /** The first separator in `a + [sep] + b` is the one after `a` when `a`
      has none. */
  lemma {:induction false} IndexOfAfter(a: string, sep: char, b: string)
    requires sep !in a
    ensures IndexOf(a + [sep] + b, sep) == |a|
  {
    if a != [] {
      assert (a + [sep] + b)[1..] == a[1..] + [sep] + b;
      IndexOfAfter(a[1..], sep, b);
    }
  }

  /** The first field of a split is the prefix of `s` before the first
      separator, or all of `s` when there is none. */
  lemma SplitFirstField(s: string, sep: char)
    ensures var first := Split(s, sep)[0];
      && first == s[..|first|]
      && sep !in first
      && (|first| == |s| || s[|first|] == sep)
  {
  }

  /** Joining with a separator that no part contains is undone by splitting. */
  lemma {:induction false} SplitJoin(parts: seq<string>, sep: char)
    requires |parts| > 0
    requires forall k :: 0 <= k < |parts| ==> sep !in parts[k]
    ensures Split(Join(parts, [sep]), sep) == parts
  {
    if |parts| > 1 {
      var rest := Join(parts[1..], [sep]);
      var s := parts[0] + [sep] + rest;
      assert Join(parts, [sep]) == s;
      assert sep in s by { assert s[|parts[0]|] == sep; }
      IndexOfAfter(parts[0], sep, rest);
      assert s[..|parts[0]|] == parts[0];
      assert s[|parts[0]| + 1..] == rest;
      assert Split(s, sep) == [parts[0]] + Split(rest, sep);
      SplitJoin(parts[1..], sep);
      assert parts == [parts[0]] + parts[1..];
    }
  }

  /** Splitting and re-joining gives back the string. */
  lemma {:induction false} JoinSplit(s: string, sep: char)
    ensures Join(Split(s, sep), [sep]) == s
    decreases |s|
  {
    if sep in s {
      var i := IndexOf(s, sep);
      var tail := Split(s[i + 1..], sep);
      JoinSplit(s[i + 1..], sep);
      assert Split(s, sep) == [s[..i]] + tail;
      assert ([s[..i]] + tail)[1..] == tail;
      assert s == s[..i] + [sep] + s[i + 1..];
    }
  }

  /** Python's `str.lower()` restricted to ASCII letters. */
  function LowerChar(c: char): char {
    if 'A' <= c <= 'Z' then (c as int + 32) as char else c
  }

  function LowerAscii(s: string): (r: string)
    ensures |r| == |s|
    ensures forall i :: 0 <= i < |s| ==> r[i] == LowerChar(s[i])
  {
    seq(|s|, i requires 0 <= i < |s| => LowerChar(s[i]))
  }

  function DigitChar(d: nat): (c: char)
    requires d < 10
    ensures IsDigit(c)
  {
    ('0' as int + d) as char
  }

  /** The number a string of decimal digits denotes (leading zeros allowed). */
  function DecimalValue(s: string): nat
    requires AllDigits(s)
  {
    if s == [] then 0
    else 10 * DecimalValue(s[..|s| - 1]) + (s[|s| - 1] as int - '0' as int)
  }

  /** Python's `str(n)` for a natural number: no leading zero. */
  function Decimal(n: nat): (r: string)
    ensures |r| > 0 && AllDigits(r)
    ensures DecimalValue(r) == n
    ensures r[0] == '0' <==> n == 0
    ensures n < 10 ==> |r| == 1
    ensures 10 <= n < 100 ==> |r| == 2
  {
    if n < 10 then [DigitChar(n)]
    else
      var r := Decimal(n / 10) + [DigitChar(n % 10)];
      assert r[..|r| - 1] == Decimal(n / 10);
      r
  }

  /** Python's `f"{n:02d}"`: the decimal digits of `n`, padded on the left
      with `0` to at least two characters. */
  function ZeroPad2(n: nat): (r: string)
    ensures |r| >= 2 && AllDigits(r)
    ensures DecimalValue(r) == n
    ensures n < 100 ==> |r| == 2
    ensures |r| > 2 ==> r[0] != '0'
  {
    var d := Decimal(n);
    if |d| < 2 then
      var r := "0" + d;
      assert r[..1] == "0";
      r
    else d
  }
}
