/** The e-mail check (helpers.py): the pattern `^[\w\.-]+@[\w\.-]+\.\w+$`
    matched against the stripped address. The matcher below works by
    positions; `PatternMatch` is the pattern read as a decomposition of the
    string, and `AcceptsIffPattern` shows the two agree. */
module Helpers {
  import opened Text
  import opened Wrappers

  /** A member of the class `[\w\.-]`. */
  predicate IsLocalChar(c: char) {
    IsWordChar(c) || c == '.' || c == '-'
  }

  predicate AllLocal(s: string) {
    forall i :: 0 <= i < |s| ==> IsLocalChar(s[i])
  }

  predicate AllWord(s: string) {
    forall i :: 0 <= i < |s| ==> IsWordChar(s[i])
  }

  /** `s` reads as `L@D.T` with the '@' at `a` and the final '.' at `d`:
      `L` and `D` non-empty over `[\w\.-]`, `T` non-empty over `\w`. */
  predicate SplitsAt(s: string, a: int, d: int) {
    && 0 < a && a + 1 < d && d + 1 < |s|
    && s[a] == '@' && s[d] == '.'
    && AllLocal(s[..a]) && AllLocal(s[a + 1..d]) && AllWord(s[d + 1..])
  }

  /** The whole string matches `[\w\.-]+@[\w\.-]+\.\w+`. */
  ghost predicate PatternMatch(s: string) {
    exists a, d :: SplitsAt(s, a, d)
  }

  /** Position of the first `c` in `s`. */
  function IndexOf(s: string, c: char): (r: Option<nat>)
    ensures r.Some? ==> r.value < |s| && s[r.value] == c && c !in s[..r.value]
    ensures r.None? ==> c !in s
  {
    if |s| == 0 then None
    else if s[0] == c then Some(0)
    else match IndexOf(s[1..], c)
      case None => None
      case Some(i) =>
        assert s[..i + 1] == [s[0]] + s[1..][..i];
        Some(i + 1)
  }

  /** Position of the last `c` in `s`. */
  function LastIndexOf(s: string, c: char): (r: Option<nat>)
    ensures r.Some? ==> r.value < |s| && s[r.value] == c && c !in s[r.value + 1..]
    ensures r.None? ==> c !in s
  {
    if |s| == 0 then None
    else if s[|s| - 1] == c then Some(|s| - 1)
    else match LastIndexOf(s[..|s| - 1], c)
      case None => None
      case Some(i) =>
        assert s[i + 1..] == s[..|s| - 1][i + 1..] + [s[|s| - 1]];
        Some(i)
  }

  /** The matcher: the first '@' splits the address; everything after it is
      in `[\w\.-]`, and its last '.' has at least one character before it
      and only word characters, at least one, after it. */
  predicate Accepts(s: string) {
    match IndexOf(s, '@')
    case None => false
    case Some(a) =>
      var rest := s[a + 1..];
      && a > 0
      && AllLocal(s[..a])
      && AllLocal(rest)
      && match LastIndexOf(rest, '.')
         case None => false
         case Some(p) => p > 0 && p + 1 < |rest| && AllWord(rest[p + 1..])
  }

  /** `email_validation`: the pattern is matched against `email.strip()`. */
  predicate EmailValidation(email: string) {
    Accepts(Strip(email))
  }

  /** The matcher accepts exactly the strings the pattern describes. */
  lemma AcceptsIffPattern(s: string)
    ensures Accepts(s) <==> PatternMatch(s)
  {
    if Accepts(s) {
      var a := IndexOf(s, '@').value;
      var rest := s[a + 1..];
      var p := LastIndexOf(rest, '.').value;
      var d := a + 1 + p;
      assert s[a + 1..d] == rest[..p];
      assert s[d + 1..] == rest[p + 1..];
      assert SplitsAt(s, a, d);
    }
    if PatternMatch(s) {
      var a, d :| SplitsAt(s, a, d);
      PatternForcesMatcher(s, a, d);
    }
  }

  lemma {:induction false} IndexOfAt(s: string, c: char, a: nat)
    requires a < |s| && s[a] == c && c !in s[..a]
    ensures IndexOf(s, c) == Some(a)
  {
    if a > 0 {
      assert s[0] == s[..a][0];
      assert s[1..][..a - 1] == s[1..a];
      IndexOfAt(s[1..], c, a - 1);
    }
  }

  lemma {:induction false} LastIndexOfAt(s: string, c: char, p: nat)
    requires p < |s| && s[p] == c && c !in s[p + 1..]
    ensures LastIndexOf(s, c) == Some(p)
    decreases |s|
  {
    if p < |s| - 1 {
      var t := s[..|s| - 1];
      assert s[|s| - 1] == s[p + 1..][|s| - 2 - p];
      assert t[p + 1..] == s[p + 1..|s| - 1];
      LastIndexOfAt(t, c, p);
    }
  }

  /** Any decomposition the pattern allows is the one the matcher finds. */
  lemma PatternForcesMatcher(s: string, a: int, d: int)
    requires SplitsAt(s, a, d)
    ensures IndexOf(s, '@') == Some(a)
    ensures LastIndexOf(s[a + 1..], '.') == Some(d - a - 1)
    ensures Accepts(s)
  {
    assert '@' !in s[..a] by {
      forall i | 0 <= i < a ensures s[..a][i] != '@' {
        assert IsLocalChar(s[..a][i]);
      }
    }
    IndexOfAt(s, '@', a);
    var rest := s[a + 1..];
    var p := d - a - 1;
    assert rest[p] == '.';
    assert rest[..p] == s[a + 1..d];
    assert rest[p + 1..] == s[d + 1..];
    assert AllLocal(rest) by {
      forall i | 0 <= i < |rest| ensures IsLocalChar(rest[i]) {
        if i < p {
          assert rest[i] == s[a + 1..d][i];
        } else if i > p {
          assert rest[i] == s[d + 1..][i - p - 1];
        }
      }
    }
    var tail := rest[p + 1..];
    assert '.' !in tail by {
      forall i | 0 <= i < |tail| ensures tail[i] != '.' {
        assert IsWordChar(s[d + 1..][i]);
      }
    }
    LastIndexOfAt(rest, '.', p);
  }

  /** An accepted address has exactly one '@', with a non-empty local part
      over `[\w\.-]` before it, and ends in '.' followed by word characters
      with at least one allowed character between the '@' and that '.'. */
  lemma AcceptedShape(s: string) returns (a: nat, d: nat)
    requires Accepts(s)
    ensures SplitsAt(s, a, d)
    ensures forall i :: 0 <= i < |s| && s[i] == '@' ==> i == a
  {
    AcceptsIffPattern(s);
    var a', d' :| SplitsAt(s, a', d');
    a, d := a', d';
    forall i | 0 <= i < |s| && i != a
      ensures IsLocalChar(s[i])
    {
      if i < a {
        assert s[i] == s[..a][i];
      } else if i < d {
        assert s[i] == s[a + 1..d][i - a - 1];
      } else if i > d {
        assert s[i] == s[d + 1..][i - d - 1];
      }
    }
  }

  /** Every character of an accepted address is in `[\w\.-]` or is the '@'. */
  lemma AcceptedChars(s: string)
    ensures Accepts(s) ==> forall i :: 0 <= i < |s| ==> IsLocalChar(s[i]) || s[i] == '@'
  {
    if Accepts(s) {
      var a, d := AcceptedShape(s);
    }
  }

  /** A character outside `[\w\.-]` and other than '@' anywhere in the
      stripped address (a '+', an inner space) means rejection. */
  lemma ForeignCharRejected(email: string, i: nat)
    requires i < |Strip(email)|
    requires !IsLocalChar(Strip(email)[i]) && Strip(email)[i] != '@'
    ensures !EmailValidation(email)
  {
    AcceptedChars(Strip(email));
  }

  /** Whitespace around the address does not change the verdict. */
  lemma PaddingIgnored(pre: string, email: string, post: string)
    requires AllSpace(pre) && AllSpace(post)
    ensures EmailValidation(pre + email + post) == EmailValidation(email)
  {
    StripPadded(pre, email, post);
  }
}
