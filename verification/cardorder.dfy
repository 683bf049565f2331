/** Job-card ordering (`_sort_job_cards` and its `get_index`, scraper.py):
    cards are sorted by the integer after the last '-' of their
    `data-automation` attribute, an unreadable index counting as 0. Python's
    `sorted` is stable, so cards with equal indices keep their page order. */
module CardOrder {
  import opened Text
  import opened Wrappers

  /** A job card as found on the page: its `data-automation` attribute (None
      when absent or unreadable) and whatever else the caller attaches. */
  datatype Card<T> = Card(automation: Option<string>, payload: T)

  // ---------------------------------------------------------------------------
  // int() on a string
  // ---------------------------------------------------------------------------

  /** Digits with single underscores between them, as `int()` allows. */
  predicate IsDigitGroup(s: string) {
    && |s| > 0 && IsDigit(s[0]) && IsDigit(s[|s| - 1])
    && (forall i :: 0 <= i < |s| ==> IsDigit(s[i]) || s[i] == '_')
    && !Contains(s, "__")
  }

  /** The digits of `s` with the underscores left out. */
  function DropUnderscores(s: string): (r: string)
    requires forall i :: 0 <= i < |s| ==> IsDigit(s[i]) || s[i] == '_'
    ensures AllDigits(r)
  {
    if |s| == 0 then ""
    else if s[0] == '_' then DropUnderscores(s[1..])
    else [s[0]] + DropUnderscores(s[1..])
  }

  lemma {:induction false} DropUnderscoresOfDigits(s: string)
    requires AllDigits(s)
    ensures DropUnderscores(s) == s
  {
    if |s| > 0 {
      DropUnderscoresOfDigits(s[1..]);
    }
  }

  /** The value of an unsigned digit group, None for anything else. */
  function ParseGroup(body: string): (r: Option<nat>)
    ensures r.Some? <==> IsDigitGroup(body)
  {
    if IsDigitGroup(body) then Some(DigitsValue(DropUnderscores(body))) else None
  }

  /** `int()` on text with nothing left to strip: an optional sign, then a
      digit group. */
  function ParseSigned(t: string): (r: Option<int>)
    ensures r.Some? ==> |t| > 0
  {
    if |t| > 0 && (t[0] == '+' || t[0] == '-') then
      match ParseGroup(t[1..])
      case None => None
      case Some(n) => Some(if t[0] == '-' then -(n as int) else n as int)
    else
      match ParseGroup(t)
      case None => None
      case Some(n) => Some(n as int)
  }

  /** Python's `int(s)` in base 10: surrounding whitespace, an optional sign,
      then a digit group; None where Python raises ValueError. */
  function ParseInt(s: string): (r: Option<int>)
    ensures r.Some? ==> |Strip(s)| > 0
  {
    ParseSigned(Strip(s))
  }

  /** The decimal rendering of an int, as `str()` gives it. */
  function ShowInt(n: int): string {
    if n < 0 then "-" + ShowNat(-n) else ShowNat(n)
  }

  lemma DigitsAreGroup(s: string)
    requires |s| > 0 && AllDigits(s)
    ensures IsDigitGroup(s)
  {
    NoUnderscorePair(s);
  }

  /** Plain digits hold no doubled underscore. */
  lemma {:induction false} NoUnderscorePair(s: string)
    requires AllDigits(s)
    ensures !Contains(s, "__")
    decreases |s|
  {
    if |s| > 0 {
      assert IsDigit(s[0]);
      if |s| >= 2 {
        assert s[..2][0] == s[0];
      }
      assert !IsPrefix("__", s);
      NoUnderscorePair(s[1..]);
    }
  }

  /** The decimal digits of `n` survive `int()` unchanged. */
  lemma ShowNatGroup(n: nat)
    ensures IsDigitGroup(ShowNat(n))
    ensures DigitsValue(DropUnderscores(ShowNat(n))) == n
  {
    var d := ShowNat(n);
    ShowNatRoundTrip(n);
    DigitsAreGroup(d);
    DropUnderscoresOfDigits(d);
  }

  /** A rendered natural number reads back as itself. */
  lemma ParseShowNat(n: nat)
    ensures ParseInt(ShowNat(n)) == Some(n)
  {
    var d := ShowNat(n);
    ShowNatGroup(n);
    NothingToStrip(d);
    assert ParseGroup(d) == Some(n);
    assert d[0] != '+' && d[0] != '-';
  }

  /** A string that starts and ends with a non-space is its own strip. */
  lemma NothingToStrip(s: string)
    requires |s| > 0 && !IsSpace(s[0]) && !IsSpace(s[|s| - 1])
    ensures Strip(s) == s
  {
    TrimStartSpaceFree(s);
    TrimEndSpaceFree(s);
  }

  /** A minus sign before plain digits negates their value. */
  lemma ParseNegativeDigits(d: string, v: nat)
    requires |d| > 0 && AllDigits(d) && DigitsValue(d) == v
    ensures ParseInt("-" + d) == Some(-(v as int))
  {
    MinusUnstripped(d);
    ParseGroupDigits(d);
    ParseSignedMinus(d, v);
  }

  /** A minus sign before digits leaves nothing to strip. */
  lemma MinusUnstripped(d: string)
    requires |d| > 0 && AllDigits(d)
    ensures Strip("-" + d) == "-" + d
  {
    var s := "-" + d;
    assert s[0] == '-' && s[|s| - 1] == d[|d| - 1];
    NothingToStrip(s);
  }

  /** A minus sign before a digit group negates the group's value. */
  lemma ParseSignedMinus(g: string, v: nat)
    requires ParseGroup(g) == Some(v)
    ensures ParseSigned("-" + g) == Some(-(v as int))
  {
    assert ("-" + g)[1..] == g;
  }

  lemma SomeNegated(v: nat, n: int)
    requires v == -n
    ensures Some(-(v as int)) == Some(n)
  {
  }

  /** Plain digits form a digit group worth their value. */
  lemma ParseGroupDigits(d: string)
    requires |d| > 0 && AllDigits(d)
    ensures ParseGroup(d) == Some(DigitsValue(d))
  {
    DigitsAreGroup(d);
    DropUnderscoresOfDigits(d);
  }

  /** `int(str(n)) == n`, for negative numbers as well. */
  lemma ParseShowInt(n: int)
    ensures ParseInt(ShowInt(n)) == Some(n)
  {
    if n >= 0 {
      ParseShowNat(n);
    } else {
      ParseShowNegative(n);
    }
  }

  /** A negative number's rendering reads back as that number. */
  lemma ParseShowNegative(n: int)
    requires n < 0
    ensures ParseInt(ShowInt(n)) == Some(n)
  {
    var d := ShowNat(-n);
    assert ShowInt(n) == "-" + d;
    ShowNatRoundTrip(-n);
    ParseNegativeDigits(d, -n);
    SomeNegated(-n, n);
  }

  // ---------------------------------------------------------------------------
  // get_index
  // ---------------------------------------------------------------------------

  /** `attr.split("-")[-1]`: what follows the last '-', or all of `attr`. */
  function LastSegment(attr: string): (r: string)
    ensures '-' !in r
    ensures EndsWith(attr, r)
    ensures |r| == |attr| || attr[|attr| - |r| - 1] == '-'
  {
    var parts := Split(attr, '-');
    var n := |parts|;
    if n == 1 then parts[0]
    else
      assert parts == parts[..n - 1] + [parts[n - 1]];
      JoinAppend(parts[..n - 1], [parts[n - 1]], '-');
      parts[n - 1]
  }

  /** What follows a '-' that is followed by no other '-' is the last segment. */
  lemma LastSegmentAfterDash(pre: string, seg: string)
    requires '-' !in seg
    ensures LastSegment(pre + "-" + seg) == seg
  {
    SplitAppend(pre, seg, '-');
    SplitJoin([seg], '-');
  }

  /** An attribute without '-' is its own last segment. */
  lemma LastSegmentNoDash(attr: string)
    requires '-' !in attr
    ensures LastSegment(attr) == attr
  {
    SplitJoin([attr], '-');
  }

  /** `get_index`: the number after the last '-', or 0 when there is no
      attribute or that text is not a number. */
  function GetIndex(automation: Option<string>): (r: int)
    ensures automation.None? ==> r == 0
    ensures automation.Some? && ParseInt(LastSegment(automation.value)).None? ==> r == 0
  {
    match automation
    case None => 0
    case Some(a) => ParseInt(LastSegment(a)).GetOr(0)
  }

  /** A card marked "job-item-" and a rendered number sorts under that number. */
  lemma GetIndexJobItem(n: nat)
    ensures GetIndex(Some("job-item-" + ShowInt(n))) == n
  {
    IndexOfRendered("job-item-" + ShowInt(n), "job-item", n);
  }

  /** A negative number loses its sign: "job-item--5" splits into "job",
      "item", "" and "5", so its index is 5. */
  lemma GetIndexNegative(n: int)
    requires n < 0
    ensures GetIndex(Some("job-item-" + ShowInt(n))) == -n
  {
    var d := ShowNat(-n);
    assert ShowInt(n) == "-" + d;
    IndexOfRendered("job-item-" + ShowInt(n), "job-item-", -n);
  }

  /** A rendered natural number after a '-' is the index. */
  lemma IndexOfRendered(attr: string, pre: string, m: nat)
    requires attr == pre + "-" + ShowNat(m)
    ensures GetIndex(Some(attr)) == m
  {
    var d := ShowNat(m);
    assert '-' !in d by {
      assert forall i :: 0 <= i < |d| ==> IsDigit(d[i]);
    }
    ParseShowNat(m);
    GetIndexAfterDash(pre, d, m);
  }

  /** The index of an attribute is the value of the text after its last '-'. */
  lemma GetIndexAfterDash(pre: string, seg: string, v: int)
    requires '-' !in seg && ParseInt(seg) == Some(v)
    ensures GetIndex(Some(pre + "-" + seg)) == v
  {
    LastSegmentAfterDash(pre, seg);
  }

  /** The sort key of a card. */
  function Key<T>(c: Card<T>): int {
    GetIndex(c.automation)
  }

  // ---------------------------------------------------------------------------
  // Stable sort by a key
  // ---------------------------------------------------------------------------

  predicate SortedBy<T>(xs: seq<T>, key: T -> int) {
    forall i, j :: 0 <= i < j < |xs| ==> key(xs[i]) <= key(xs[j])
  }

  /** The elements of `xs` whose key is `k`, in their order in `xs`. */
  function WithKey<T>(xs: seq<T>, key: T -> int, k: int): seq<T> {
    if |xs| == 0 then [] else KeyedAs(xs[0], key, k) + WithKey(xs[1..], key, k)
  }

  /** `[x]` when `x`'s key is `k`, nothing otherwise. */
  function KeyedAs<T>(x: T, key: T -> int, k: int): seq<T> {
    if key(x) == k then [x] else []
  }

  lemma WithKeyCons<T>(h: T, t: seq<T>, key: T -> int, k: int)
    ensures WithKey([h] + t, key, k) == KeyedAs(h, key, k) + WithKey(t, key, k)
  {
    assert ([h] + t)[1..] == t;
  }

  /** Inserts `x` before the first element whose key is not smaller. */
  function InsertBy<T>(x: T, xs: seq<T>, key: T -> int): (r: seq<T>)
    requires SortedBy(xs, key)
    ensures SortedBy(r, key)
    ensures multiset(r) == multiset(xs) + multiset{x}
  {
    if |xs| == 0 then [x]
    else if key(x) <= key(xs[0]) then [x] + xs
    else
      assert xs == [xs[0]] + xs[1..];
      var t := InsertBy(x, xs[1..], key);
      LowerBound(xs[0], x, xs[1..], t, key);
      [xs[0]] + t
  }

  /** A key not above `x`'s nor any of `tl`'s is not above any key of a
      permutation of `tl` plus `x`. */
  lemma LowerBound<T>(h: T, x: T, tl: seq<T>, t: seq<T>, key: T -> int)
    requires multiset(t) == multiset(tl) + multiset{x}
    requires key(h) <= key(x)
    requires forall j :: 0 <= j < |tl| ==> key(h) <= key(tl[j])
    ensures forall j :: 0 <= j < |t| ==> key(h) <= key(t[j])
  {
    forall j | 0 <= j < |t| ensures key(h) <= key(t[j]) {
      assert t[j] in multiset(t);
      if t[j] != x {
        assert t[j] in multiset(tl);
        var m :| 0 <= m < |tl| && tl[m] == t[j];
      }
    }
  }

  /** Inserting `x` puts it ahead of the elements already carrying its key
      and leaves every other key's elements alone. */
  lemma {:induction false} InsertWithKey<T>(x: T, xs: seq<T>, key: T -> int, k: int)
    requires SortedBy(xs, key)
    ensures WithKey(InsertBy(x, xs, key), key, k) == KeyedAs(x, key, k) + WithKey(xs, key, k)
  {
    if |xs| == 0 {
      WithKeyCons(x, xs, key, k);
    } else if key(x) <= key(xs[0]) {
      WithKeyCons(x, xs, key, k);
    } else {
      var h, tl := xs[0], xs[1..];
      var t := InsertBy(x, tl, key);
      assert InsertBy(x, xs, key) == [h] + t;
      InsertWithKey(x, tl, key, k);
      assert xs == [h] + tl;
      PassKeyed(h, x, t, tl, key, k);
    }
  }

  /** Putting `h` in front commutes with putting `x` in front, for the
      elements of one key, when `h` and `x` have different keys. */
  lemma PassKeyed<T>(h: T, x: T, t: seq<T>, tl: seq<T>, key: T -> int, k: int)
    requires key(h) != key(x)
    requires WithKey(t, key, k) == KeyedAs(x, key, k) + WithKey(tl, key, k)
    ensures WithKey([h] + t, key, k) == KeyedAs(x, key, k) + WithKey([h] + tl, key, k)
  {
    WithKeyCons(h, t, key, k);
    WithKeyCons(h, tl, key, k);
    assert KeyedAs(h, key, k) == [] || KeyedAs(x, key, k) == [];
  }

  /** Python's stable `sorted(xs, key=key)`, as an insertion sort. */
  function SortBy<T>(xs: seq<T>, key: T -> int): (r: seq<T>)
    ensures SortedBy(r, key)
    ensures multiset(r) == multiset(xs)
    ensures forall k :: WithKey(r, key, k) == WithKey(xs, key, k)
  {
    if |xs| == 0 then []
    else
      assert xs == [xs[0]] + xs[1..];
      var t := SortBy(xs[1..], key);
      assert forall k :: WithKey(InsertBy(xs[0], t, key), key, k) == WithKey(xs, key, k) by {
        forall k ensures WithKey(InsertBy(xs[0], t, key), key, k) == WithKey(xs, key, k) {
          InsertWithKey(xs[0], t, key, k);
        }
      }
      InsertBy(xs[0], t, key)
  }

  /** `_sort_job_cards`: the cards in ascending index order, a permutation of
      the input in which cards with equal index keep their page order. */
  function SortCards<T>(cards: seq<Card<T>>): (r: seq<Card<T>>)
    ensures SortedBy(r, Key)
    ensures multiset(r) == multiset(cards)
    ensures forall k :: WithKey(r, Key, k) == WithKey(cards, Key, k)
  {
    SortBy(cards, Key)
  }

  /** Two cards in descending index order are swapped. */
  lemma SortPair<T>(a: Card<T>, b: Card<T>)
    requires Key(b) < Key(a)
    ensures SortCards([a, b]) == [b, a]
  {
    var r := SortCards([a, b]);
    assert |r| == |multiset(r)| == 2;
    assert r[0] in multiset([a, b]) && r[1] in multiset([a, b]);
    assert multiset(r) == multiset{r[0], r[1]} by {
      assert r == [r[0], r[1]];
    }
    assert Key(r[0]) <= Key(r[1]);
  }

  /** Cards that already come in index order are left as they are. */
  lemma {:induction false} SortBySorted<T>(xs: seq<T>, key: T -> int)
    requires SortedBy(xs, key)
    ensures SortBy(xs, key) == xs
  {
    if |xs| > 0 {
      SortBySorted(xs[1..], key);
    }
  }
}
