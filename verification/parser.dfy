/** The line-based drawer parser (parser.py): a block of drawer text becomes a
    fixed record by locating anchor lines and reading fields at fixed offsets
    from them. Every field but the timestamp starts as "n/a" and keeps that
    value unless its own guard lets a line through. */
module Parser {
  import opened Text
  import opened Wrappers

  /** The default of every parsed field. */
  const NA: string := "n/a"

  const ApplicationAnchor: string := "Lamaran untuk"
  const StatusAnchor: string := "Status lamaran"
  const DocumentsAnchor: string := "Dokumen terkirim"
  const ComparisonAnchor: string := "Perbandingan dengan kamu"

  /** Marks a salary line. */
  const Currency: string := "Rp"

  /** Marks a cover-letter line that says none was sent (compared in lower case). */
  const NoCoverLetter: string := "tidak ada surat lamaran"

  /** A date line is recognised by one of these month names, Indonesian then English. */
  const Months: seq<string> := [
    "Januari", "Februari", "Maret", "April", "Mei", "Juni", "Juli", "Agustus",
    "September", "Oktober", "November", "Desember",
    "January", "February", "March", "April", "May", "June", "July", "August",
    "September", "October", "November", "December"
  ]

  /** The record `parse_job` returns. `scrapedAt` is the clock reading taken
      when the text was parsed; here it is supplied by the caller. */
  datatype ParsedJob = ParsedJob(
    scrapedAt: string,
    title: string,
    company: string,
    location: string,
    salary: string,
    status: string,
    dateApplied: string,
    cv: string,
    coverLetter: string,
    peopleApplied: string
  )

  // ---------------------------------------------------------------------------
  // The working line list
  // ---------------------------------------------------------------------------

  /** A line of the working list: stripped and not empty. */
  predicate IsKeptLine(l: string) {
    |l| > 0 && Strip(l) == l
  }

  /** What one raw line contributes: its stripped form, unless that is empty. */
  function KeepLine(raw: string): (r: seq<string>)
    ensures |r| <= 1
    ensures |r| == 1 <==> Strip(raw) != ""
    ensures forall l :: l in r ==> l == Strip(raw) && IsKeptLine(l)
  {
    var l := Strip(raw);
    StripIdempotent(raw);
    if l != "" then [l] else []
  }

  /** The stripped forms of the non-blank raw lines, in order. */
  function KeepLines(raw: seq<string>): (r: seq<string>)
    ensures |r| <= |raw|
    ensures forall l :: l in r ==> IsKeptLine(l)
  {
    if |raw| == 0 then [] else KeepLine(raw[0]) + KeepLines(raw[1..])
  }

  /** Every non-blank raw line survives, stripped. */
  lemma {:induction false} KeepLinesKeeps(raw: seq<string>, k: nat)
    requires k < |raw| && Strip(raw[k]) != ""
    ensures Strip(raw[k]) in KeepLines(raw)
  {
    var h := KeepLine(raw[0]);
    if k > 0 {
      assert raw[1..][k - 1] == raw[k];
      KeepLinesKeeps(raw[1..], k - 1);
    } else {
      assert h[0] in h;
    }
    assert KeepLines(raw) == h + KeepLines(raw[1..]);
  }

  /** Filtering raw lines commutes with concatenation, so order is kept. */
  lemma {:induction false} KeepLinesAppend(a: seq<string>, b: seq<string>)
    ensures KeepLines(a + b) == KeepLines(a) + KeepLines(b)
  {
    if |a| > 0 {
      assert (a + b)[0] == a[0];
      assert (a + b)[1..] == a[1..] + b;
      KeepLinesAppend(a[1..], b);
    } else {
      assert a + b == b;
    }
  }

  /** `[line.strip() for line in text.split("\n") if line.strip()]`. */
  function Lines(text: string): seq<string> {
    KeepLines(Split(text, '\n'))
  }

  /** Text glued at a newline parses into the lines of each side, in order. */
  lemma LinesAppend(a: string, b: string)
    ensures Lines(a + "\n" + b) == Lines(a) + Lines(b)
  {
    SplitAppend(a, b, '\n');
    KeepLinesAppend(Split(a, '\n'), Split(b, '\n'));
  }

  /** Text without a newline is at most one working line, its stripped form. */
  lemma LinesOfOneLine(l: string)
    requires '\n' !in l
    ensures Lines(l) == if Strip(l) == "" then [] else [Strip(l)]
  {
    SplitJoin([l], '\n');
  }

  // ---------------------------------------------------------------------------
  // find_idx
  // ---------------------------------------------------------------------------

  /** Line `j` of `lines` contains `keyword`. */
  predicate Mentions(lines: seq<string>, j: int, keyword: string)
    requires 0 <= j < |lines|
  {
    Contains(lines[j], keyword)
  }

  /** `i` is the first line of `lines` that contains `keyword`. */
  predicate IsFirst(lines: seq<string>, keyword: string, i: int) {
    && 0 <= i < |lines|
    && Mentions(lines, i, keyword)
    && forall j :: 0 <= j < i ==> !Mentions(lines, j, keyword)
  }

  /** No line of `lines` contains `keyword`. */
  predicate Absent(lines: seq<string>, keyword: string) {
    forall j :: 0 <= j < |lines| ==> !Mentions(lines, j, keyword)
  }

  function FindFrom(lines: seq<string>, keyword: string, k: nat): (r: Option<nat>)
    requires k <= |lines|
    requires forall j :: 0 <= j < k ==> !Mentions(lines, j, keyword)
    ensures r.Some? ==> IsFirst(lines, keyword, r.value)
    ensures r.None? ==> Absent(lines, keyword)
    decreases |lines| - k
  {
    if k == |lines| then None
    else if Mentions(lines, k, keyword) then Some(k)
    else FindFrom(lines, keyword, k + 1)
  }

  /** The inner `find_idx`: the index of the first line containing `keyword`,
      or None when no line does. */
  function FindIdx(lines: seq<string>, keyword: string): (r: Option<nat>)
    ensures r.Some? ==> IsFirst(lines, keyword, r.value)
    ensures r.None? ==> Absent(lines, keyword)
  {
    FindFrom(lines, keyword, 0)
  }

  /** There is only one first line: the index is determined by the lines. */
  lemma IsFirstUnique(lines: seq<string>, keyword: string, i: int, j: int)
    requires IsFirst(lines, keyword, i) && IsFirst(lines, keyword, j)
    ensures i == j
  {
  }

  // ---------------------------------------------------------------------------
  // Field guards
  // ---------------------------------------------------------------------------

  /** The line mentions one of the month names. */
  predicate NamesMonth(line: string) {
    ContainsAny(line, Months)
  }

  /** The line at `idx`, or the default when the list is too short. */
  function LineOr(lines: seq<string>, idx: nat): string {
    if idx < |lines| then lines[idx] else NA
  }

  /** `line.lower().endswith(".pdf")`. */
  predicate IsPdfName(line: string) {
    EndsWith(Lower(line), ".pdf")
  }

  /** `k` is the first line among offsets 1, 2, 3 after `d` that names a PDF. */
  predicate FirstPdfAt(lines: seq<string>, d: nat, k: int) {
    && d + 1 <= k <= d + 3
    && k < |lines|
    && IsPdfName(lines[k])
    && forall m :: d + 1 <= m < k ==> !IsPdfName(lines[m])
  }

  /** No line among offsets 1, 2, 3 after `d` names a PDF. */
  predicate NoPdfNear(lines: seq<string>, d: nat) {
    forall m :: d + 1 <= m <= d + 3 && m < |lines| ==> !IsPdfName(lines[m])
  }

  /** The `for offset in range(1, 4)` scan with its `break`. */
  function ScanPdf(lines: seq<string>, d: nat, offset: nat): (r: Option<nat>)
    requires 1 <= offset <= 4
    requires forall m :: d + 1 <= m < d + offset && m < |lines| ==> !IsPdfName(lines[m])
    ensures r.Some? ==> FirstPdfAt(lines, d, r.value)
    ensures r.None? ==> NoPdfNear(lines, d)
    decreases 4 - offset
  {
    if offset == 4 then None
    else if d + offset < |lines| && IsPdfName(lines[d + offset]) then Some(d + offset)
    else ScanPdf(lines, d, offset + 1)
  }

  /** The cover-letter line after the CV line, unless it says none was sent. */
  function CoverLetterAfter(lines: seq<string>, k: nat): string {
    if k + 1 < |lines| && !Contains(Lower(lines[k + 1]), NoCoverLetter) then lines[k + 1] else NA
  }

  /** Index of the first decimal digit in `s`. */
  function FirstDigitIndex(s: string): (r: Option<nat>)
    ensures r.Some? ==> FirstDigitAt(s, r.value)
    ensures r.None? ==> HasNoDigit(s)
  {
    if |s| == 0 then None
    else if IsDigit(s[0]) then Some(0)
    else match FirstDigitIndex(s[1..])
      case None => None
      case Some(i) => Some(i + 1)
  }

  /** `re.search(r"(\d+)", s).group(1)`: the first maximal run of digits. */
  function FirstDigitRun(s: string): (r: Option<string>)
    ensures r.None? <==> HasNoDigit(s)
    ensures r.Some? ==> |r.value| > 0 && AllDigits(r.value)
  {
    match FirstDigitIndex(s)
    case None => None
    case Some(i) => Some(LeadingDigits(s[i..]))
  }

  /** The run found is a substring of the line. */
  lemma FirstDigitRunOccurs(s: string)
    requires FirstDigitRun(s).Some?
    ensures Contains(s, FirstDigitRun(s).value)
  {
    var i := FirstDigitIndex(s).value;
    var run := LeadingDigits(s[i..]);
    assert OccursAt(s, run, i) by { assert s[i..][..|run|] == s[i..i + |run|]; }
    ContainsIff(s, run);
  }

  // ---------------------------------------------------------------------------
  // parse_job
  // ---------------------------------------------------------------------------

  function Title(ls: seq<string>): string {
    match FindIdx(ls, ApplicationAnchor)
    case Some(i) => LineOr(ls, i + 1)
    case None => NA
  }

  function Company(ls: seq<string>): string {
    match FindIdx(ls, ApplicationAnchor)
    case Some(i) => LineOr(ls, i + 2)
    case None => NA
  }

  function Location(ls: seq<string>): string {
    match FindIdx(ls, ApplicationAnchor)
    case Some(i) => LineOr(ls, i + 3)
    case None => NA
  }

  function Salary(ls: seq<string>): string {
    match FindIdx(ls, ApplicationAnchor)
    case Some(i) => if i + 4 < |ls| && Contains(ls[i + 4], Currency) then ls[i + 4] else NA
    case None => NA
  }

  function Status(ls: seq<string>): string {
    match FindIdx(ls, StatusAnchor)
    case Some(i) => LineOr(ls, i + 1)
    case None => NA
  }

  function DateApplied(ls: seq<string>): string {
    match FindIdx(ls, StatusAnchor)
    case Some(i) => if i + 2 < |ls| && NamesMonth(ls[i + 2]) then ls[i + 2] else NA
    case None => NA
  }

  /** The line index of the CV, found by the scan after "Dokumen terkirim". */
  function CvIndex(ls: seq<string>): (r: Option<nat>)
    ensures r.Some? ==> r.value < |ls| && IsPdfName(ls[r.value])
  {
    match FindIdx(ls, DocumentsAnchor)
    case Some(d) => ScanPdf(ls, d, 1)
    case None => None
  }

  function Cv(ls: seq<string>): string {
    match CvIndex(ls)
    case Some(k) => ls[k]
    case None => NA
  }

  function CoverLetter(ls: seq<string>): string {
    match CvIndex(ls)
    case Some(k) => CoverLetterAfter(ls, k)
    case None => NA
  }

  function PeopleApplied(ls: seq<string>): string {
    match FindIdx(ls, ComparisonAnchor)
    case Some(i) => ApplicantsAfter(ls, i)
    case None => NA
  }

  /** The applicant figure read from the line after the anchor at `i`. */
  function ApplicantsAfter(ls: seq<string>, i: nat): string {
    if i + 1 < |ls| then FirstDigitRun(ls[i + 1]).GetOr(NA) else NA
  }

  function ParseJob(text: string, now: string): (r: ParsedJob)
    ensures r.scrapedAt == now
  {
    var ls := Lines(text);
    ParsedJob(
      scrapedAt := now,
      title := Title(ls),
      company := Company(ls),
      location := Location(ls),
      salary := Salary(ls),
      status := Status(ls),
      dateApplied := DateApplied(ls),
      cv := Cv(ls),
      coverLetter := CoverLetter(ls),
      peopleApplied := PeopleApplied(ls)
    )
  }

  /** How each field of the record is read from the working lines. */
  lemma ParseJobFields(text: string, now: string)
    ensures var ls, r := Lines(text), ParseJob(text, now);
            && r.title == Title(ls) && r.company == Company(ls) && r.location == Location(ls)
            && r.salary == Salary(ls) && r.status == Status(ls) && r.dateApplied == DateApplied(ls)
            && r.cv == Cv(ls) && r.coverLetter == CoverLetter(ls)
            && r.peopleApplied == PeopleApplied(ls)
  {
  }

  /** Each field keeps its "n/a" default when its anchor line is missing. */
  lemma ParseJobDefaults(text: string, now: string)
    ensures var ls, r := Lines(text), ParseJob(text, now);
            && (Absent(ls, ApplicationAnchor) ==>
                  r.title == NA && r.company == NA && r.location == NA && r.salary == NA)
            && (Absent(ls, StatusAnchor) ==> r.status == NA && r.dateApplied == NA)
            && (Absent(ls, DocumentsAnchor) ==> r.cv == NA && r.coverLetter == NA)
            && (Absent(ls, ComparisonAnchor) ==> r.peopleApplied == NA)
  {
    var ls := Lines(text);
    ParseJobFields(text, now);
    if Absent(ls, ApplicationAnchor) {
      HeaderDefaults(ls);
    }
    if Absent(ls, StatusAnchor) {
      NotFoundWhenAbsent(ls, StatusAnchor);
    }
    if Absent(ls, DocumentsAnchor) {
      NotFoundWhenAbsent(ls, DocumentsAnchor);
      assert CvIndex(ls) == None;
    }
    if Absent(ls, ComparisonAnchor) {
      NotFoundWhenAbsent(ls, ComparisonAnchor);
    }
  }

  lemma HeaderDefaults(ls: seq<string>)
    requires Absent(ls, ApplicationAnchor)
    ensures Title(ls) == NA && Company(ls) == NA && Location(ls) == NA && Salary(ls) == NA
  {
    NotFoundWhenAbsent(ls, ApplicationAnchor);
  }

  lemma NotFoundWhenAbsent(lines: seq<string>, keyword: string)
    requires Absent(lines, keyword)
    ensures FindIdx(lines, keyword) == None
  {
  }

  lemma FoundAtFirst(lines: seq<string>, keyword: string, i: nat)
    requires IsFirst(lines, keyword, i)
    ensures FindIdx(lines, keyword) == Some(i)
  {
    match FindIdx(lines, keyword)
    case None =>
    case Some(j) => IsFirstUnique(lines, keyword, i, j);
  }

  /** Title, company and location are the three lines after the first
      "Lamaran untuk" line, each only when it exists; the salary is the fourth
      line after it, only when that line mentions "Rp". */
  lemma ParseJobHeader(text: string, now: string, i: nat)
    requires IsFirst(Lines(text), ApplicationAnchor, i)
    ensures var ls, r := Lines(text), ParseJob(text, now);
            && r.title == (if i + 1 < |ls| then ls[i + 1] else NA)
            && r.company == (if i + 2 < |ls| then ls[i + 2] else NA)
            && r.location == (if i + 3 < |ls| then ls[i + 3] else NA)
            && r.salary == (if i + 4 < |ls| && Contains(ls[i + 4], "Rp") then ls[i + 4] else NA)
  {
    var ls := Lines(text);
    FoundAtFirst(ls, ApplicationAnchor, i);
    ParseJobFields(text, now);
  }

  /** The status is the line after the first "Status lamaran" line; the
      application date is the line after that, only when it names a month. */
  lemma ParseJobStatus(text: string, now: string, i: nat)
    requires IsFirst(Lines(text), StatusAnchor, i)
    ensures var ls, r := Lines(text), ParseJob(text, now);
            && r.status == (if i + 1 < |ls| then ls[i + 1] else NA)
            && r.dateApplied == (if i + 2 < |ls| && NamesMonth(ls[i + 2]) then ls[i + 2] else NA)
  {
    var ls := Lines(text);
    StatusAt(ls, i);
    ParseJobFields(text, now);
  }

  lemma StatusAt(ls: seq<string>, i: nat)
    requires IsFirst(ls, StatusAnchor, i)
    ensures Status(ls) == (if i + 1 < |ls| then ls[i + 1] else NA)
    ensures DateApplied(ls) == (if i + 2 < |ls| && NamesMonth(ls[i + 2]) then ls[i + 2] else NA)
  {
    FoundAtFirst(ls, StatusAnchor, i);
  }

  /** The CV is the first PDF-named line among the three after "Dokumen
      terkirim"; the cover letter is the line after the CV, present only when
      a CV was found and the line does not say that no letter was sent. */
  lemma ParseJobDocuments(text: string, now: string, d: nat)
    requires IsFirst(Lines(text), DocumentsAnchor, d)
    ensures var ls, r := Lines(text), ParseJob(text, now);
            DocumentsRule(ls, d, r.cv, r.coverLetter)
  {
    var ls := Lines(text);
    CvAt(ls, d);
    ParseJobFields(text, now);
  }

  /** What the CV and cover-letter fields must be, given the anchor at `d`. */
  ghost predicate DocumentsRule(ls: seq<string>, d: nat, cv: string, coverLetter: string) {
    && (NoPdfNear(ls, d) ==> cv == NA && coverLetter == NA)
    && (forall k | FirstPdfAt(ls, d, k) ::
          && cv == ls[k]
          && coverLetter == CoverLetterAfter(ls, k))
  }

  lemma CvAt(ls: seq<string>, d: nat)
    requires IsFirst(ls, DocumentsAnchor, d)
    ensures DocumentsRule(ls, d, Cv(ls), CoverLetter(ls))
  {
    if NoPdfNear(ls, d) {
      CvAbsent(ls, d);
    }
    forall k | FirstPdfAt(ls, d, k)
      ensures Cv(ls) == ls[k] && CoverLetter(ls) == CoverLetterAfter(ls, k)
    {
      CvFound(ls, d, k);
    }
  }

  /** No PDF among the three lines after the anchor: no CV, no cover letter. */
  lemma CvAbsent(ls: seq<string>, d: nat)
    requires IsFirst(ls, DocumentsAnchor, d) && NoPdfNear(ls, d)
    ensures Cv(ls) == NA && CoverLetter(ls) == NA
  {
    FoundAtFirst(ls, DocumentsAnchor, d);
    assert ScanPdf(ls, d, 1).None?;
  }

  /** The first PDF after the anchor is the CV, and fixes the cover letter. */
  lemma CvFound(ls: seq<string>, d: nat, k: nat)
    requires IsFirst(ls, DocumentsAnchor, d) && FirstPdfAt(ls, d, k)
    ensures Cv(ls) == ls[k] && CoverLetter(ls) == CoverLetterAfter(ls, k)
  {
    FoundAtFirst(ls, DocumentsAnchor, d);
    var r := ScanPdf(ls, d, 1);
    assert r.Some? by {
      assert IsPdfName(ls[k]);
    }
    FirstPdfUnique(ls, d, k, r.value);
  }

  lemma FirstPdfUnique(ls: seq<string>, d: nat, k: int, k': int)
    requires FirstPdfAt(ls, d, k) && FirstPdfAt(ls, d, k')
    ensures k == k'
  {
  }

  /** `j` is the position of the first decimal digit of `s`. */
  predicate FirstDigitAt(s: string, j: int) {
    0 <= j < |s| && IsDigit(s[j]) && forall m :: 0 <= m < j ==> !IsDigit(s[m])
  }

  /** No character of `s` is a decimal digit. */
  predicate HasNoDigit(s: string) {
    forall m :: 0 <= m < |s| ==> !IsDigit(s[m])
  }

  /** What the applicant field must be, given the line after the anchor. */
  ghost predicate ApplicantsRule(line: string, value: string) {
    && (HasNoDigit(line) ==> value == NA)
    && (forall j | FirstDigitAt(line, j) :: value == LeadingDigits(line[j..]))
  }

  /** The applicant figure is the first run of digits on the line after
      "Perbandingan dengan kamu"; with no digit there, or no such line, it
      stays "n/a". */
  lemma ParseJobApplicants(text: string, now: string, i: nat)
    requires IsFirst(Lines(text), ComparisonAnchor, i)
    ensures var ls, r := Lines(text), ParseJob(text, now);
            && (i + 1 >= |ls| ==> r.peopleApplied == NA)
            && (i + 1 < |ls| ==> ApplicantsRule(ls[i + 1], r.peopleApplied))
  {
    var ls := Lines(text);
    PeopleAppliedAt(ls, i);
    ParseJobFields(text, now);
  }

  lemma FirstDigitUnique(s: string, j: int, j': int)
    requires FirstDigitAt(s, j) && FirstDigitAt(s, j')
    ensures j == j'
  {
  }

  lemma PeopleAppliedAt(ls: seq<string>, i: nat)
    requires IsFirst(ls, ComparisonAnchor, i)
    ensures i + 1 >= |ls| ==> PeopleApplied(ls) == NA
    ensures i + 1 < |ls| ==> ApplicantsRule(ls[i + 1], PeopleApplied(ls))
  {
    FoundAtFirst(ls, ComparisonAnchor, i);
    assert PeopleApplied(ls) == ApplicantsAfter(ls, i);
    if i + 1 < |ls| {
      FirstDigitRunRule(ls[i + 1]);
    }
  }

  /** The first digit run of a line obeys the applicants rule. */
  lemma FirstDigitRunRule(line: string)
    ensures ApplicantsRule(line, FirstDigitRun(line).GetOr(NA))
  {
    var f := FirstDigitIndex(line);
    forall j | FirstDigitAt(line, j)
      ensures f == Some(j)
    {
      assert f.Some?;
      FirstDigitUnique(line, j, f.value);
    }
  }
}
