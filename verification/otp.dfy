/** The one-time-password format check of the login loop (`_handle_otp`,
    scraper.py): the typed line is stripped, and only six digits are sent to
    the page; anything else makes the loop ask again without touching it. */
module Otp {
  import opened Text
  import opened Wrappers

  const CodeLength: nat := 6

  /** A code the page can be given: exactly six digits. */
  predicate IsCode(code: string) {
    |code| == CodeLength && AllDigits(code)
  }

  /** One prompt: the code to submit, or None when the loop re-prompts. */
  function ReadCode(input: string): (r: Option<string>)
    ensures r.Some? ==> IsCode(r.value)
    ensures r.Some? ==> Strip(input) == r.value
    ensures IsCode(Strip(input)) ==> r.Some?
  {
    var otp := Strip(input);
    if |otp| != CodeLength || !AllDigits(otp) then None else Some(otp)
  }

  /** Any six-digit code is accepted as typed, whatever whitespace surrounds it. */
  lemma CodeAccepted(pre: string, code: string, post: string)
    requires AllSpace(pre) && AllSpace(post) && IsCode(code)
    ensures ReadCode(pre + code + post) == Some(code)
  {
    StripPadded(pre, code, post);
    CodeUnstripped(code);
  }

  /** A code has nothing to strip. */
  lemma CodeUnstripped(code: string)
    requires IsCode(code)
    ensures Strip(code) == code
  {
    assert !IsSpace(code[0]) && !IsSpace(code[|code| - 1]);
    TrimStartSpaceFree(code);
    TrimEndSpaceFree(code);
  }

  /** A stripped input of any other length is refused. */
  lemma WrongLengthRefused(input: string)
    requires |Strip(input)| != CodeLength
    ensures ReadCode(input) == None
  {
  }

  /** A non-digit inside the stripped input (a letter, an inner space) is refused. */
  lemma NonDigitRefused(input: string, i: nat)
    requires i < |Strip(input)| && !IsDigit(Strip(input)[i])
    ensures ReadCode(input) == None
  {
  }
}
