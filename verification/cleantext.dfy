/** `_clean_text` (scraper.py): invisible formatting characters are deleted
    and en and em dashes become ASCII hyphens; an empty, absent or "N/A"
    text is returned as it came. */
module TextCleaning {
  import opened Wrappers

  /** The class `[\u2060\u200B-\u200F\uFEFF]`: word joiner, zero-width
      space, zero-width (non-)joiner, direction marks, byte-order mark. */
  predicate IsInvisible(c: char) {
    c == '\U{2060}' || '\U{200B}' <= c <= '\U{200F}' || c == '\U{FEFF}'
  }

  /** En dash U+2013 or em dash U+2014. */
  predicate IsLongDash(c: char) {
    c == '\U{2013}' || c == '\U{2014}'
  }

  /** A character `_clean_text` leaves alone. */
  predicate IsPlain(c: char) {
    !IsInvisible(c) && !IsLongDash(c)
  }

  predicate AllPlain(s: string) {
    forall i :: 0 <= i < |s| ==> IsPlain(s[i])
  }

  /** The `re.sub` step: deletes the invisible characters. */
  function RemoveInvisible(s: string): (r: string)
    ensures |r| <= |s|
    ensures forall i :: 0 <= i < |r| ==> !IsInvisible(r[i])
    ensures forall i :: 0 <= i < |r| ==> r[i] in s
  {
    if |s| == 0 then ""
    else if IsInvisible(s[0]) then RemoveInvisible(s[1..])
    else [s[0]] + RemoveInvisible(s[1..])
  }

  function Dehyphen(c: char): char {
    if IsLongDash(c) then '-' else c
  }

  /** The two `replace` steps: each en or em dash becomes '-'. */
  function ReplaceDashes(s: string): (r: string)
    ensures |r| == |s|
    ensures forall i :: 0 <= i < |s| ==> r[i] == Dehyphen(s[i])
  {
    seq(|s|, i requires 0 <= i < |s| => Dehyphen(s[i]))
  }

  /** The cleaning applied to a text that is not one of the pass-through cases. */
  function CleanChars(s: string): (r: string)
    ensures |r| <= |s|
    ensures AllPlain(r)
  {
    ReplaceDashes(RemoveInvisible(s))
  }

  /** `_clean_text(text)`; `None` stands for Python's None. */
  function Clean(text: Option<string>): (r: Option<string>)
    ensures text.None? <==> r.None?
    ensures text == Some("") || text == Some("N/A") ==> r == text
    ensures text.Some? ==> |r.value| <= |text.value| && AllPlain(r.value)
  {
    match text
    case None => None
    case Some(t) => if t == "" || t == "N/A" then text else Some(CleanChars(t))
  }

  /** The pass-through cases change nothing that cleaning would change: a
      present text always comes back as its characters cleaned. */
  lemma CleanPresent(t: string)
    ensures Clean(Some(t)) == Some(CleanChars(t))
  {
    if t == "N/A" {
      assert AllPlain(t) by {
        assert t == ['N', '/', 'A'];
      }
      CleanCharsPlain(t);
    }
  }

  /** Cleaning works character by character: it commutes with concatenation. */
  lemma {:induction false} CleanCharsAppend(a: string, b: string)
    ensures CleanChars(a + b) == CleanChars(a) + CleanChars(b)
  {
    RemoveInvisibleAppend(a, b);
  }

  lemma {:induction false} RemoveInvisibleAppend(a: string, b: string)
    ensures RemoveInvisible(a + b) == RemoveInvisible(a) + RemoveInvisible(b)
  {
    if |a| > 0 {
      assert (a + b)[0] == a[0];
      assert (a + b)[1..] == a[1..] + b;
      RemoveInvisibleAppend(a[1..], b);
    } else {
      assert a + b == b;
    }
  }

  /** What cleaning does to a single character: drops an invisible one, maps
      a long dash to '-', keeps everything else. */
  lemma CleanCharsOne(c: char)
    ensures CleanChars([c]) == if IsInvisible(c) then "" else [Dehyphen(c)]
  {
    assert [c][1..] == "";
  }

  /** Text without the special characters passes through unchanged. */
  lemma {:induction false} CleanCharsPlain(s: string)
    requires AllPlain(s)
    ensures CleanChars(s) == s
  {
    if |s| > 0 {
      assert s == [s[0]] + s[1..];
      CleanCharsAppend([s[0]], s[1..]);
      CleanCharsOne(s[0]);
      CleanCharsPlain(s[1..]);
    }
  }

  /** Cleaning twice is cleaning once. */
  lemma CleanIdempotent(text: Option<string>)
    ensures Clean(Clean(text)) == Clean(text)
  {
    if text.Some? && text.value != "" && text.value != "N/A" {
      CleanCharsPlain(CleanChars(text.value));
    }
  }

  /** The number of occurrences of `c` in `s`. */
  function Count(s: string, c: char): nat {
    if |s| == 0 then 0 else (if s[0] == c then 1 else 0) + Count(s[1..], c)
  }

  /** Dashes are replaced one for one: the hyphens of the result are the
      hyphens, en dashes and em dashes of the input. */
  lemma {:induction false} HyphenCount(s: string)
    ensures Count(CleanChars(s), '-') == Count(s, '-') + Count(s, '\U{2013}') + Count(s, '\U{2014}')
  {
    if |s| > 0 {
      assert s == [s[0]] + s[1..];
      CleanCharsAppend([s[0]], s[1..]);
      CleanCharsOne(s[0]);
      CountAppend(CleanChars([s[0]]), CleanChars(s[1..]), '-');
      HyphenCount(s[1..]);
    }
  }

  lemma {:induction false} CountAppend(a: string, b: string, c: char)
    ensures Count(a + b, c) == Count(a, c) + Count(b, c)
  {
    if |a| > 0 {
      assert (a + b)[1..] == a[1..] + b;
      CountAppend(a[1..], b, c);
    } else {
      assert a + b == b;
    }
  }
}
