/** What the scraper reads out of an opened job drawer (scraper.py): the
    header block under "Lamaran untuk" with its optional salary line and job
    link, the uploaded document names, and the applicant count. The page is
    replaced by the elements the XPath lookups would find. */
module Drawer {
  import opened Text
  import opened Wrappers
  import TextCleaning

  /** The default of every drawer field. */
  const NA: string := "N/A"

  /** The salary text must contain this, in any case, for the job link to be
      looked up after the salary line. */
  const PerMonth: string := "per month"

  /** An `<a>` element; `href` is None when the attribute is missing. */
  datatype Anchor = Anchor(href: Option<string>)

  /** A `<span>` sibling in the header block: its text, its direct `<a>`
      child if any (the `span[1]/a` lookup), and whether some `<a>` lies
      anywhere inside it (the by-tag lookup). */
  datatype Span = Span(text: string, childAnchor: Option<Anchor>, nestedAnchor: bool)
  {
    predicate HasLink() {
      childAnchor.Some? || nestedAnchor
    }
  }

  /** The header block: the texts of the title `<h3>` and the company and
      location spans that follow it, then up to two more spans. */
  datatype InfoBlock = InfoBlock(
    title: string,
    company: string,
    location: string,
    fourth: Option<Span>,
    fifth: Option<Span>)

  /** The five fields `_extract_job_info_from_drawer` returns. */
  datatype JobInfo = JobInfo(title: string, company: string, location: string, salary: string, url: string)

  const Unknown: JobInfo := JobInfo(NA, NA, NA, NA, NA)

  // ---------------------------------------------------------------------------
  // The job link
  // ---------------------------------------------------------------------------

  /** `href.strip().split("?")[0]`: the stripped link up to its first '?'. */
  function StripQuery(href: string): (r: string)
    ensures '?' !in r
    ensures IsPrefix(r, Strip(href))
    ensures |r| == |Strip(href)| || Strip(href)[|r|] == '?'
  {
    var parts := Split(Strip(href), '?');
    if |parts| == 1 then parts[0]
    else
      assert parts == [parts[0]] + parts[1..];
      JoinAppend([parts[0]], parts[1..], '?');
      parts[0]
  }

  /** A link with a query string and surrounding whitespace gives back the
      address before the '?'. */
  lemma StripQueryOf(pre: string, url: string, query: string, post: string)
    requires AllSpace(pre) && AllSpace(post)
    requires '?' !in url && |url| > 0 && !IsSpace(url[0])
    requires |query| == 0 || !IsSpace(query[|query| - 1])
    ensures StripQuery(pre + url + "?" + query + post) == url
  {
    var link := url + ['?'] + query;
    var h := pre + url + "?" + query + post;
    assert Strip(h) == link by {
      assert h == pre + link + post;
      StripPadded(pre, link, post);
      SpaceFreeEnds(url, query);
    }
    QueryCut(url, query);
  }

  /** Splitting at '?' puts what comes before the first '?' in front. */
  lemma QueryCut(url: string, query: string)
    requires '?' !in url
    ensures Split(url + ['?'] + query, '?')[0] == url
  {
    SplitAppend(url, query, '?');
    SplitJoin([url], '?');
  }

  /** `url?query` has nothing to strip when `url` starts and `query` ends
      with a non-space. */
  lemma SpaceFreeEnds(url: string, query: string)
    requires |url| > 0 && !IsSpace(url[0])
    requires |query| == 0 || !IsSpace(query[|query| - 1])
    ensures Strip(url + ['?'] + query) == url + ['?'] + query
  {
    var link := url + ['?'] + query;
    assert link[0] == url[0];
    if |query| == 0 {
      assert link[|link| - 1] == '?';
    } else {
      assert link[|link| - 1] == query[|query| - 1];
    }
    TrimStartSpaceFree(link);
    TrimEndSpaceFree(link);
  }

  /** A link without '?' is only stripped. */
  lemma StripQueryNoQuery(href: string)
    requires '?' !in Strip(href)
    ensures StripQuery(href) == Strip(href)
  {
    SplitJoin([Strip(href)], '?');
  }

  /** The link under a span: "N/A" when there is no such span, no direct
      `<a>` child, or no href on it. */
  function LinkUnder(span: Option<Span>): (r: string)
    ensures r != NA ==> span.Some? && span.value.childAnchor.Some? && span.value.childAnchor.value.href.Some?
    ensures r != NA ==> r == StripQuery(span.value.childAnchor.value.href.value)
  {
    if span.Some? && span.value.childAnchor.Some? && span.value.childAnchor.value.href.Some? then
      StripQuery(span.value.childAnchor.value.href.value)
    else NA
  }

  // ---------------------------------------------------------------------------
  // The header block
  // ---------------------------------------------------------------------------

  /** The salary line: the fourth span's stripped text, unless it is missing
      or holds a link (then it is the job link, not a salary). */
  function SalaryText(fourth: Option<Span>): (r: string)
    ensures fourth.None? || fourth.value.HasLink() ==> r == NA
    ensures fourth.Some? && !fourth.value.HasLink() ==> r == Strip(fourth.value.text)
  {
    if fourth.None? || fourth.value.HasLink() then NA else Strip(fourth.value.text)
  }

  /** `has_salary`: a salary line whose lower-cased text mentions "per month". */
  predicate HasMonthlySalary(fourth: Option<Span>) {
    fourth.Some? && !fourth.value.HasLink() && Contains(Lower(Strip(fourth.value.text)), PerMonth)
  }

  /** `_extract_job_info_from_drawer`. `None` stands for a drawer in which
      the "Lamaran untuk" span, the title or the company or location span is
      missing: every field is then "N/A". Otherwise the link is read from the
      span after the salary line when that line mentions "per month", and
      from the span after the location (that is, the fourth span) otherwise. */
  function ExtractJobInfo(block: Option<InfoBlock>): (r: JobInfo)
    ensures block.None? ==> r == Unknown
    ensures block.Some? ==>
              && r.title == Strip(block.value.title)
              && r.company == Strip(block.value.company)
              && r.location == Strip(block.value.location)
    ensures TextCleaning.AllPlain(r.salary)
    ensures '?' !in r.url
  {
    match block
    case None => Unknown
    case Some(b) =>
      JobInfo(Strip(b.title), Strip(b.company), Strip(b.location), Salary(b.fourth), JobLink(b.fourth, b.fifth))
  }

  /** The reported salary: the salary line after `_clean_text`. */
  function Salary(fourth: Option<Span>): (r: string)
    ensures TextCleaning.AllPlain(r)
    ensures fourth.None? || fourth.value.HasLink() ==> r == NA
  {
    TextCleaning.Clean(Some(SalaryText(fourth))).value
  }

  /** The reported job link. */
  function JobLink(fourth: Option<Span>, fifth: Option<Span>): (r: string)
    ensures '?' !in r
  {
    if HasMonthlySalary(fourth) then LinkUnder(fifth) else LinkUnder(fourth)
  }

  /** No salary is reported when the fourth span is missing or is a link. */
  lemma NoSalaryWhenLinkOrMissing(b: InfoBlock)
    requires b.fourth.None? || b.fourth.value.HasLink()
    ensures ExtractJobInfo(Some(b)).salary == NA
    ensures ExtractJobInfo(Some(b)).url == LinkUnder(b.fourth)
  {
  }

  /** A plain fourth span is reported as the salary, cleaned, whether or not
      it mentions "per month". */
  lemma SalaryIsFourthSpan(b: InfoBlock)
    requires b.fourth.Some? && !b.fourth.value.HasLink()
    ensures ExtractJobInfo(Some(b)).salary == TextCleaning.Clean(Some(Strip(b.fourth.value.text))).value
  {
  }

  /** With a monthly salary the job link is the one in the fifth span. */
  lemma MonthlySalaryLink(b: InfoBlock)
    requires HasMonthlySalary(b.fourth)
    ensures ExtractJobInfo(Some(b)).url == LinkUnder(b.fifth)
  {
  }

  /** A salary line without "per month" sends the link lookup to the salary
      span itself, which holds no link: the job link is then always "N/A",
      whatever the fifth span holds. */
  lemma OtherSalaryHidesLink(b: InfoBlock)
    requires b.fourth.Some? && !b.fourth.value.HasLink() && !HasMonthlySalary(b.fourth)
    ensures ExtractJobInfo(Some(b)).url == NA
  {
  }

  /** A salary line without "per month" loses the job link even when the
      span after it holds one: the lookup reads the salary span, not the
      span that follows it. */
  lemma NonMonthlySalaryLosesLink(b: InfoBlock)
    requires b.fourth.Some? && !b.fourth.value.HasLink() && !HasMonthlySalary(b.fourth)
    requires LinkUnder(b.fifth) != NA
    ensures ExtractJobInfo(Some(b)).url == NA
    ensures JobLinkAsCommented(b.fourth, b.fifth) != ExtractJobInfo(Some(b)).url
  {
  }

  /** The link lookup as the comment above it describes it: after the salary
      line whenever there is one, after the location otherwise. */
  function JobLinkAsCommented(fourth: Option<Span>, fifth: Option<Span>): (r: string)
    ensures '?' !in r
  {
    if fourth.Some? && !fourth.value.HasLink() then LinkUnder(fifth) else LinkUnder(fourth)
  }

  /** The commented lookup finds the fifth span's link whenever the fourth
      span is a salary line, and agrees with the code whenever that line
      mentions "per month" or there is no salary line. */
  lemma CommentedLinkFollowsSalary(b: InfoBlock)
    ensures b.fourth.Some? && !b.fourth.value.HasLink() ==> JobLinkAsCommented(b.fourth, b.fifth) == LinkUnder(b.fifth)
    ensures b.fourth.None? || b.fourth.value.HasLink() ==> JobLinkAsCommented(b.fourth, b.fifth) == LinkUnder(b.fourth)
    ensures HasMonthlySalary(b.fourth) || b.fourth.None? || b.fourth.value.HasLink() ==>
              JobLinkAsCommented(b.fourth, b.fifth) == ExtractJobInfo(Some(b)).url
  {
  }

  /** A link found for the job is the stripped href of a direct `<a>` child
      of the fourth or the fifth span. */
  lemma UrlSource(b: InfoBlock)
    ensures var url := ExtractJobInfo(Some(b)).url;
            url == NA || url == LinkUnder(b.fourth) || url == LinkUnder(b.fifth)
  {
  }

  // ---------------------------------------------------------------------------
  // Documents and applicants
  // ---------------------------------------------------------------------------

  /** A resume or cover-letter name: the element's stripped and cleaned text,
      or "N/A" when the element never appears. */
  function DocumentName(text: Option<string>): (r: string)
    ensures text.None? ==> r == NA
    ensures text.Some? ==> |r| <= |text.value|
    ensures text.Some? ==> r == TextCleaning.CleanChars(Strip(text.value))
    ensures TextCleaning.AllPlain(r)
  {
    match text
    case None => NA
    case Some(t) =>
      TextCleaning.CleanPresent(Strip(t));
      TextCleaning.Clean(Some(Strip(t))).value
  }

  /** `re.search(r"^(\d+)", raw)` made an int: the number at the very start
      of the applicants sentence, None when it does not start with a digit
      (leading whitespace included), or when the sentence never appears. */
  function ApplicantCount(raw: Option<string>): (r: Option<nat>)
    ensures raw.None? ==> r.None?
    ensures raw.Some? ==> (r.None? <==> |raw.value| == 0 || !IsDigit(raw.value[0]))
  {
    match raw
    case None => None
    case Some(s) =>
      var digits := LeadingDigits(s);
      if |digits| == 0 then None else Some(DigitsValue(digits))
  }

  /** A sentence opening with a run of digits reports the value of that run,
      leading zeros included, whatever follows a non-digit after it. */
  lemma ApplicantCountOf(d: string, rest: string)
    requires |d| > 0 && AllDigits(d)
    requires |rest| == 0 || !IsDigit(rest[0])
    ensures ApplicantCount(Some(d + rest)) == Some(DigitsValue(d))
  {
    LeadingDigitsOf(d, rest);
  }

  /** A sentence opening with a rendered number reports that number. */
  lemma ApplicantCountOfNumber(n: nat, rest: string)
    requires |rest| == 0 || !IsDigit(rest[0])
    ensures ApplicantCount(Some(ShowNat(n) + rest)) == Some(n)
  {
    ApplicantCountOf(ShowNat(n), rest);
    ShowNatRoundTrip(n);
  }

  /** The leading digit run of digits followed by a non-digit is those digits. */
  lemma {:induction false} LeadingDigitsOf(d: string, rest: string)
    requires AllDigits(d)
    requires |rest| == 0 || !IsDigit(rest[0])
    ensures LeadingDigits(d + rest) == d
  {
    if |d| > 0 {
      assert (d + rest)[1..] == d[1..] + rest;
      LeadingDigitsOf(d[1..], rest);
      assert d == [d[0]] + d[1..];
    } else {
      assert d + rest == rest;
    }
  }
}
