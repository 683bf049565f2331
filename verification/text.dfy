/** The string primitives the scraper's rules are built from: Python's
    `str.strip()`, `in` on strings, `str.lower()`, `str.split(sep)`, the `\d`
    and `\w` character classes, decimal digit strings, and the code-point
    order `sorted()` uses on strings. */
module Text {

  // ---------------------------------------------------------------------------
  // Whitespace and str.strip()
  // ---------------------------------------------------------------------------

  /** Python's `str.isspace()`: the code points `str.strip()` with no argument removes. */
  predicate IsSpace(c: char) {
    || c == ' '
    || '\t' <= c <= '\r'
    || '\U{1c}' <= c <= '\U{1f}'
    || c == '\U{85}' || c == '\U{a0}' || c == '\U{1680}'
    || '\U{2000}' <= c <= '\U{200a}'
    || c == '\U{2028}' || c == '\U{2029}' || c == '\U{202f}' || c == '\U{205f}'
    || c == '\U{3000}'
  }

  predicate AllSpace(s: string) {
    forall i :: 0 <= i < |s| ==> IsSpace(s[i])
  }

  /** `s.lstrip()`: the suffix of `s` left after its leading whitespace. */
  function TrimStart(s: string): (r: string)
    ensures |r| <= |s| && r == s[|s| - |r|..]
    ensures AllSpace(s[..|s| - |r|])
    ensures |r| == 0 || !IsSpace(r[0])
  {
    if |s| > 0 && IsSpace(s[0]) then
      var r := TrimStart(s[1..]);
      assert s[1..][..|s| - 1 - |r|] == s[1..|s| - |r|];
      r
    else s
  }

  /** `s.rstrip()`: the prefix of `s` left after its trailing whitespace. */
  function TrimEnd(s: string): (r: string)
    ensures |r| <= |s| && r == s[..|r|]
    ensures AllSpace(s[|r|..])
    ensures |r| == 0 || !IsSpace(r[|r| - 1])
  {
    if |s| > 0 && IsSpace(s[|s| - 1]) then TrimEnd(s[..|s| - 1]) else s
  }

  /** `s.strip()`: `s` with whitespace removed from both ends. */
  function Strip(s: string): (r: string)
    ensures |r| <= |s|
    ensures |r| == 0 || (!IsSpace(r[0]) && !IsSpace(r[|r| - 1]))
  {
    TrimEnd(TrimStart(s))
  }

  lemma TrimStartSpaceFree(s: string)
    requires |s| == 0 || !IsSpace(s[0])
    ensures TrimStart(s) == s
  {
  }

  lemma TrimEndSpaceFree(s: string)
    requires |s| == 0 || !IsSpace(s[|s| - 1])
    ensures TrimEnd(s) == s
  {
  }

  /** Stripping twice is stripping once. */
  lemma StripIdempotent(s: string)
    ensures Strip(Strip(s)) == Strip(s)
  {
    var r := Strip(s);
    TrimStartSpaceFree(r);
    TrimEndSpaceFree(r);
  }

  lemma {:induction false} TrimStartPadded(pre: string, s: string)
    requires AllSpace(pre)
    ensures TrimStart(pre + s) == TrimStart(s)
    decreases |pre|
  {
    if |pre| > 0 {
      assert (pre + s)[1..] == pre[1..] + s;
      TrimStartPadded(pre[1..], s);
    } else {
      assert pre + s == s;
    }
  }

  lemma {:induction false} TrimEndPadded(s: string, post: string)
    requires AllSpace(post)
    ensures TrimEnd(s + post) == TrimEnd(s)
    decreases |post|
  {
    if |post| > 0 {
      var p := post[..|post| - 1];
      assert (s + post)[..|s + post| - 1] == s + p;
      TrimEndPadded(s, p);
    } else {
      assert s + post == s;
    }
  }

  lemma {:induction false} TrimStartAppend(s: string, post: string)
    requires |TrimStart(s)| > 0
    ensures TrimStart(s + post) == TrimStart(s) + post
    decreases |s|
  {
    if |s| > 0 && IsSpace(s[0]) {
      assert (s + post)[1..] == s[1..] + post;
      TrimStartAppend(s[1..], post);
    }
  }

  /** Whitespace around a string does not change what `strip()` returns. */
  lemma StripPadded(pre: string, s: string, post: string)
    requires AllSpace(pre) && AllSpace(post)
    ensures Strip(pre + s + post) == Strip(s)
  {
    assert pre + s + post == pre + (s + post);
    TrimStartPadded(pre, s + post);
    var t := TrimStart(s);
    if |t| > 0 {
      TrimStartAppend(s, post);
      TrimEndPadded(t, post);
    } else {
      assert s[..|s|] == s;
      AllSpaceAppend(s, post);
      AllSpaceTrimsToEmpty(s + post);
    }
  }

  lemma AllSpaceAppend(a: string, b: string)
    requires AllSpace(a) && AllSpace(b)
    ensures AllSpace(a + b)
  {
    forall i | 0 <= i < |a + b| ensures IsSpace((a + b)[i]) {
      if i < |a| {
        assert (a + b)[i] == a[i];
      } else {
        assert (a + b)[i] == b[i - |a|];
      }
    }
  }

  lemma {:induction false} AllSpaceTrimsToEmpty(s: string)
    requires AllSpace(s)
    ensures TrimStart(s) == ""
    decreases |s|
  {
    if |s| > 0 {
      AllSpaceTrimsToEmpty(s[1..]);
    }
  }

  // ---------------------------------------------------------------------------
  // Substrings, prefixes, suffixes
  // ---------------------------------------------------------------------------

  predicate IsPrefix(p: string, s: string) {
    |p| <= |s| && s[..|p|] == p
  }

  /** Python's `sub in s`. */
  predicate Contains(s: string, sub: string)
    decreases |s|
  {
    IsPrefix(sub, s) || (|s| > 0 && Contains(s[1..], sub))
  }

  /** `sub` occurs in `s` starting at position `i`. */
  predicate OccursAt(s: string, sub: string, i: int) {
    0 <= i <= |s| - |sub| && s[i..i + |sub|] == sub
  }

  /** `Contains` agrees with the positional definition of a substring. */
  lemma {:induction false} ContainsIff(s: string, sub: string)
    ensures Contains(s, sub) <==> exists i :: OccursAt(s, sub, i)
    decreases |s|
  {
    if IsPrefix(sub, s) {
      assert OccursAt(s, sub, 0);
    } else if |s| == 0 {
    } else {
      ContainsIff(s[1..], sub);
      if exists i :: OccursAt(s, sub, i) {
        var i :| OccursAt(s, sub, i);
        assert i != 0;
        assert s[1..][i - 1..i - 1 + |sub|] == s[i..i + |sub|];
        assert OccursAt(s[1..], sub, i - 1);
      }
      if Contains(s[1..], sub) {
        var i :| OccursAt(s[1..], sub, i);
        assert s[i + 1..i + 1 + |sub|] == s[1..][i..i + |sub|];
        assert OccursAt(s, sub, i + 1);
      }
    }
  }

  /** Python's `s.endswith(suffix)`. */
  predicate EndsWith(s: string, suffix: string) {
    |suffix| <= |s| && s[|s| - |suffix|..] == suffix
  }

  /** Python's `any(n in s for n in needles)`. */
  predicate ContainsAny(s: string, needles: seq<string>) {
    exists i :: 0 <= i < |needles| && Contains(s, needles[i])
  }

  // ---------------------------------------------------------------------------
  // Case folding
  // ---------------------------------------------------------------------------

  function LowerChar(c: char): char {
    if 'A' <= c <= 'Z' then (c as int + 32) as char else c
  }

  /** `s.lower()`, restricted to the ASCII letters. */
  function Lower(s: string): (r: string)
    ensures |r| == |s|
    ensures forall i :: 0 <= i < |s| ==> r[i] == LowerChar(s[i])
  {
    seq(|s|, i requires 0 <= i < |s| => LowerChar(s[i]))
  }

  // ---------------------------------------------------------------------------
  // Character classes
  // ---------------------------------------------------------------------------

  /** The `\d` class and `str.isdigit()`, restricted to ASCII. */
  predicate IsDigit(c: char) {
    '0' <= c <= '9'
  }

  /** The `\w` class, restricted to ASCII: letters, digits and underscore. */
  predicate IsWordChar(c: char) {
    'a' <= c <= 'z' || 'A' <= c <= 'Z' || IsDigit(c) || c == '_'
  }

  predicate AllDigits(s: string) {
    forall i :: 0 <= i < |s| ==> IsDigit(s[i])
  }

  // ---------------------------------------------------------------------------
  // Decimal numerals
  // ---------------------------------------------------------------------------

  function DigitValue(c: char): nat
    requires IsDigit(c)
  {
    c as int - '0' as int
  }

  function DigitChar(d: nat): (c: char)
    requires d < 10
    ensures IsDigit(c) && DigitValue(c) == d
  {
    ('0' as int + d) as char
  }

  /** The number a string of decimal digits denotes (what `int()` gives it). */
  function DigitsValue(s: string): nat
    requires AllDigits(s)
  {
    if |s| == 0 then 0 else DigitsValue(s[..|s| - 1]) * 10 + DigitValue(s[|s| - 1])
  }

  /** The decimal numeral of `n` (Python's `str(n)` for a non-negative int). */
  function ShowNat(n: nat): (r: string)
    ensures |r| > 0 && AllDigits(r)
    ensures |r| > 1 ==> r[0] != '0'
  {
    if n < 10 then [DigitChar(n)] else ShowNat(n / 10) + [DigitChar(n % 10)]
  }

  /** Reading back a rendered numeral gives the number. */
  lemma {:induction false} ShowNatRoundTrip(n: nat)
    ensures DigitsValue(ShowNat(n)) == n
  {
    if n >= 10 {
      ShowNatRoundTrip(n / 10);
      var s := ShowNat(n);
      assert s[..|s| - 1] == ShowNat(n / 10);
    }
  }

  /** The maximal run of digits at the start of `s`. */
  function LeadingDigits(s: string): (r: string)
    ensures IsPrefix(r, s) && AllDigits(r)
    ensures |r| == |s| || !IsDigit(s[|r|])
  {
    if |s| > 0 && IsDigit(s[0]) then [s[0]] + LeadingDigits(s[1..]) else ""
  }

  // ---------------------------------------------------------------------------
  // str.split(sep) for a one-character separator, and its inverse sep.join
  // ---------------------------------------------------------------------------

  /** `sep.join(parts)`. */
  function Join(parts: seq<string>, sep: char): string
    requires |parts| > 0
  {
    if |parts| == 1 then parts[0] else parts[0] + [sep] + Join(parts[1..], sep)
  }

  predicate NoSep(parts: seq<string>, sep: char) {
    forall i :: 0 <= i < |parts| ==> sep !in parts[i]
  }

  /** `s.split(sep)`: the maximal separator-free pieces, joined back by `sep`. */
  function Split(s: string, sep: char): (r: seq<string>)
    ensures |r| > 0 && NoSep(r, sep)
    ensures Join(r, sep) == s
  {
    if |s| == 0 then [""]
    else
      var rest := Split(s[1..], sep);
      if s[0] == sep then [""] + rest
      else [[s[0]] + rest[0]] + rest[1..]
  }

  /** The other direction of the round trip: splitting a join of separator-free
      pieces gives the pieces back. */
  lemma {:induction false} SplitJoin(parts: seq<string>, sep: char)
    requires |parts| > 0 && NoSep(parts, sep)
    ensures Split(Join(parts, sep), sep) == parts
    decreases |Join(parts, sep)|
  {
    var s := Join(parts, sep);
    if |parts[0]| > 0 {
      var tail := [parts[0][1..]] + parts[1..];
      assert NoSep(tail, sep) by {
        assert forall i :: 1 <= i < |tail| ==> tail[i] == parts[i];
        assert sep !in parts[0][1..] by { assert forall j :: 0 <= j < |parts[0]| - 1 ==> parts[0][1..][j] == parts[0][j + 1]; }
      }
      assert tail[1..] == parts[1..];
      JoinConsHead(parts, sep);
      SplitJoin(tail, sep);
      assert parts[0] == [parts[0][0]] + parts[0][1..];
      assert [[parts[0][0]] + tail[0]] + tail[1..] == parts;
    } else if |parts| == 1 {
    } else {
      assert s == [sep] + Join(parts[1..], sep);
      assert s[1..] == Join(parts[1..], sep);
      SplitJoin(parts[1..], sep);
      assert [""] + parts[1..] == parts;
    }
  }

  /** Joining two lists of pieces is joining each and putting one separator between. */
  lemma {:induction false} JoinAppend(p: seq<string>, q: seq<string>, sep: char)
    requires |p| > 0 && |q| > 0
    ensures Join(p + q, sep) == Join(p, sep) + [sep] + Join(q, sep)
  {
    if |p| == 1 {
      assert (p + q)[1..] == q;
    } else {
      assert (p + q)[1..] == p[1..] + q;
      JoinAppend(p[1..], q, sep);
    }
  }

  /** Splitting at a separator splits the two sides independently. */
  lemma SplitAppend(a: string, b: string, sep: char)
    ensures Split(a + [sep] + b, sep) == Split(a, sep) + Split(b, sep)
  {
    var p := Split(a, sep) + Split(b, sep);
    JoinAppend(Split(a, sep), Split(b, sep), sep);
    assert NoSep(p, sep) by {
      assert forall i :: 0 <= i < |p| ==> p[i] in Split(a, sep) || p[i] in Split(b, sep);
    }
    SplitJoin(p, sep);
  }

  lemma JoinConsHead(parts: seq<string>, sep: char)
    requires |parts| > 0 && |parts[0]| > 0
    ensures var tail := [parts[0][1..]] + parts[1..];
            && Join(parts, sep) == [parts[0][0]] + Join(tail, sep)
  {
    var tail := [parts[0][1..]] + parts[1..];
    assert parts[0] == [parts[0][0]] + parts[0][1..];
    if |parts| > 1 {
      assert tail[1..] == parts[1..];
    }
  }

  // ---------------------------------------------------------------------------
  // Code-point order on strings (Python's `<` on str)
  // ---------------------------------------------------------------------------

  /** `a < b` on Python strings: lexicographic by code point, a proper prefix first. */
  predicate Less(a: string, b: string) {
    |b| > 0 && (|a| == 0 || a[0] < b[0] || (a[0] == b[0] && Less(a[1..], b[1..])))
  }

  lemma {:induction false} LessIrreflexive(a: string)
    ensures !Less(a, a)
  {
    if |a| > 0 {
      LessIrreflexive(a[1..]);
    }
  }

  lemma {:induction false} LessTransitive(a: string, b: string, c: string)
    requires Less(a, b) && Less(b, c)
    ensures Less(a, c)
  {
    if |a| > 0 && a[0] == b[0] && b[0] == c[0] {
      LessTransitive(a[1..], b[1..], c[1..]);
    }
  }

  lemma {:induction false} LessTotal(a: string, b: string)
    requires a != b
    ensures Less(a, b) || Less(b, a)
  {
    if |a| > 0 && |b| > 0 && a[0] == b[0] {
      assert a == [a[0]] + a[1..] && b == [b[0]] + b[1..];
      LessTotal(a[1..], b[1..]);
    }
  }
}
