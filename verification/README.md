# JobStreet applied-jobs scraper, modelled in Dafny

The scraper logs into JobStreet, walks the pages of the "applied jobs"
list, opens each job card's drawer, and collects one record per job. The
records are then normalised for CSV export. This project models the
decision logic of that pipeline as pure Dafny functions and proves what
each piece promises.

The modules follow the source files:

- `Text` holds the string primitives the rules are built from:
  - Python's `str.strip()`, with the exact `str.isspace()` set;
  - `in` on strings, `split`, `lower()`;
  - decimal digits, and the code-point order `sorted()` uses on strings.
- `Parser` models `parse_job` (parser.py). The text is reduced to its
  stripped non-blank lines, and each field is read at a fixed offset from
  the first line holding its anchor phrase.
- `Exporter` models `_normalize_application_status` and the CSV header
  (exporter.py). Records are dicts of dynamically typed values.
- `Helpers` models `email_validation` (helpers.py). It is a
  character-level matcher, proved equivalent to a decomposition of the
  regular expression.
- The rest of scraper.py is split into five modules:
  - `TextCleaning` models `_clean_text`;
  - `CardOrder` models `_sort_job_cards` and `get_index`, including
    `int()` on the text after the last '-';
  - `Otp` models the one-time-password format check;
  - `Drawer` models the header-block salary/link decision, the document
    names and the applicant count;
  - `Session` models the bookkeeping of `scrape_all_jobs`: ids, skipped
    cards, the `extra_info` carry-over and the stop rules.

The browser is replaced by data:

- a page is its cards and whether "Next" works;
- a card is what each step of its processing runs into (`CardRun`);
- a drawer header is the spans the XPath lookups would find (`InfoBlock`, `Span`).

Where the code and its accompanying description differ, the model follows
the code:

- `sorted` is stable, so cards with equal indices keep page order. The
  order is non-decreasing, not strictly ascending.
- No "per month" suffix is stripped from a salary.
- A salary line without "per month" still counts as the salary.

## Model

| member | source | states |
|---|---|---|
| Parser.LinesAppend | parser.py:5 | the working lines of two texts joined by a newline are the lines of each, in order |
| Parser.LinesOfOneLine | parser.py:5 | a single line contributes its stripped text, or nothing when it is blank |
| Parser.KeepLinesKeeps | parser.py:5 | every non-blank raw line survives, stripped |
| Parser.FindIdx | parser.py:19-23 | the result is the first line containing the keyword, or None exactly when no line contains it |
| Parser.IsFirstUnique | parser.py:19-23 | there is only one first line mentioning a keyword |
| Parser.ParseJobHeader | parser.py:25-32 | title, company and location are the three lines after the first "Lamaran untuk" line when they exist; salary is the fourth line after it only when that line contains "Rp" |
| Parser.ParseJobStatus | parser.py:34-66 | status is the line after the first "Status lamaran" line; the application date is the line after that, only when it names a month |
| Parser.ParseJobDocuments | parser.py:68-80 | the CV is the first line ending in ".pdf" (any case) among the three after "Dokumen terkirim"; the cover letter is the line after it unless that line says no cover letter was sent |
| Parser.CvAt | parser.py:68-80 | the CV and cover letter obey the documents rule whether or not a PDF line is found |
| Parser.ParseJobApplicants | parser.py:82-86 | the applicant count is the first run of digits in the line after "Perbandingan dengan kamu", "n/a" when it has none |
| Parser.FirstDigitRunRule | parser.py:84-86 | the digit run found is the first maximal run of digits of the line, and "n/a" exactly when the line has no digit |
| Parser.ParseJobDefaults | parser.py:6-17 | each field stays "n/a" when its anchor phrase is on no line |
| Parser.ParseJob | parser.py:7 | the scrape time is the clock reading passed in |
| Exporter.Summarise | exporter.py:24-45 | no list or an empty list gives "N/A" three times; otherwise the first entry's "updated_at" and the last entry's "status" and "updated_at" are used, each "N/A" when the key is missing, and a non-dict last entry is shown with `str` and has no date |
| Exporter.SummariseEvents | exporter.py:33-45 | on a scraped timeline the status and its date come from the newest event, the application date from the oldest |
| Exporter.SummariseAppend | exporter.py:33-45 | a new event replaces the current status and date and keeps the application date |
| Exporter.NormalizeRecord | exporter.py:23-49 | the timeline key is removed, the three summary keys are written, and every other key keeps its value |
| Exporter.NormalizeWithoutTimeline | exporter.py:24-30 | a record with no, a non-list or an empty timeline gets "N/A" in all three summary keys |
| Exporter.Normalize | exporter.py:19-51 | one normalised record per job, in input order |
| Exporter.NormalizeAppend | exporter.py:19-51 | normalising a concatenation normalises each part independently |
| Exporter.AllKeysIff | exporter.py:66-68 | a key is in the union exactly when some record has it |
| Exporter.UnionKeys | exporter.py:66-68 | the loop collects exactly the keys some record has |
| Exporter.SortKeys | exporter.py:69 | the header is strictly sorted in code-point order and holds exactly the given keys |
| Exporter.CsvHeader | exporter.py:58-69 | no header for no jobs; otherwise the sorted union of the normalised keys, which has the three summary keys and not the timeline key |
| Helpers.AcceptsIffPattern | helpers.py:4-6 | the matcher accepts a string exactly when it splits as word-or-dot-or-dash characters, '@', more such characters, '.', and word characters |
| Helpers.PatternForcesMatcher | helpers.py:5 | any decomposition the regex allows is found at the first '@' and the last '.' after it |
| Helpers.AcceptedShape | helpers.py:5 | an accepted address has exactly one '@' and splits as the regex requires |
| Helpers.ForeignCharRejected | helpers.py:5-6 | a character outside `[\w.-@]` inside the stripped input makes validation fail |
| Helpers.PaddingIgnored | helpers.py:6 | surrounding whitespace does not change the verdict |
| Text.StripPadded | helpers.py:6 | stripping removes any whitespace padding and nothing else |
| Text.StripIdempotent | parser.py:5 | stripping a stripped string changes nothing |
| TextCleaning.Clean | scraper.py:72-82 | None, "" and "N/A" pass through; otherwise the result is no longer than the input and has no invisible character and no en or em dash |
| TextCleaning.CleanPresent | scraper.py:72-82 | the pass-through of "" and "N/A" agrees with cleaning: a present text always comes back as its characters cleaned |
| TextCleaning.CleanIdempotent | scraper.py:72-82 | cleaning twice is cleaning once |
| TextCleaning.CleanCharsAppend | scraper.py:77-80 | cleaning works character by character over a concatenation |
| TextCleaning.CleanCharsOne | scraper.py:77-80 | one character is dropped when invisible, mapped to '-' when a long dash, and kept otherwise |
| TextCleaning.HyphenCount | scraper.py:80 | the hyphens of the result are the hyphens, en dashes and em dashes of the input |
| CardOrder.GetIndex | scraper.py:216-222 | no attribute, or a text after the last '-' that `int()` rejects, gives 0 |
| CardOrder.GetIndexAfterDash | scraper.py:219 | the index is the `int()` value of the text after the last '-' |
| CardOrder.GetIndexJobItem | scraper.py:216-222 | a card marked "job-item-" and a rendered number has that number as its index |
| CardOrder.GetIndexNegative | scraper.py:219 | a negative number after "job-item-" loses its sign, because the split drops the '-' |
| CardOrder.ParseShowInt | scraper.py:219 | `int()` reads back any rendered integer |
| CardOrder.SortCards | scraper.py:213-224 | the result is sorted by index, a permutation of the input, and cards with equal index keep their page order |
| CardOrder.SortBySorted | scraper.py:224 | an already sorted list is left as it is |
| CardOrder.SortPair | scraper.py:224 | two cards in descending index order are swapped |
| Otp.ReadCode | scraper.py:134-140 | the code is sent exactly when the stripped input is six digits, and it is the stripped input |
| Otp.CodeAccepted | scraper.py:134-140 | any six-digit code is accepted whatever whitespace surrounds it |
| Otp.WrongLengthRefused | scraper.py:136-140 | a stripped input of another length is refused |
| Otp.NonDigitRefused | scraper.py:136-140 | a non-digit in the stripped input is refused |
| Drawer.StripQuery | scraper.py:326 | the link is the stripped href up to its first '?', and holds no '?' |
| Drawer.StripQueryOf | scraper.py:326 | a padded link with a query string gives back the address before the '?' |
| Drawer.StripQueryNoQuery | scraper.py:326 | a link without '?' is only stripped |
| Drawer.ExtractJobInfo | scraper.py:280-342 | a missing header block gives "N/A" everywhere; otherwise title, company and location are stripped texts, the salary is clean and the link has no query |
| Drawer.NoSalaryWhenLinkOrMissing | scraper.py:297-313 | with no fourth span, or a fourth span holding a link, the salary is "N/A" and the link is read from the fourth span |
| Drawer.SalaryIsFourthSpan | scraper.py:306-308 | a plain fourth span is the salary, stripped and cleaned, with or without "per month" |
| Drawer.MonthlySalaryLink | scraper.py:318-321 | with a "per month" salary the link is read from the fifth span |
| Drawer.OtherSalaryHidesLink | scraper.py:318-325 | with a salary lacking "per month" the link is always "N/A" |
| Drawer.UrlSource | scraper.py:317-329 | any link found comes from the fourth or fifth span |
| Drawer.DocumentName | scraper.py:406-425 | a missing element gives "N/A"; a present one gives its stripped text with invisible characters removed and long dashes turned into '-' |
| Drawer.ApplicantCount | scraper.py:447-448 | None exactly when the sentence is missing or does not start with a digit |
| Drawer.ApplicantCountOf | scraper.py:447-448 | a sentence opening with a run of digits reports the value of that run, leading zeros included |
| Drawer.ApplicantCountOfNumber | scraper.py:447-448 | a sentence opening with a rendered number reports that number |
| Session.RunCard | scraper.py:575-638 | a kept card appends one record with the next id; any other card appends nothing; a card without a link leaves `extra_info` as it was |
| Session.RunCards | scraper.py:572-638 | a page's run only appends, at most one record per card, and keeps ids consecutive |
| Session.NoDrawerCardsSkipped | scraper.py:581-586 | cards whose drawer never opens change nothing |
| Session.CleanCardsAllKept | scraper.py:580-638 | cards that pass every step each give one record |
| Session.LinklessCardLostWhenUnbound | scraper.py:590-616 | a card without a link before any tab has opened is skipped, because `extra_info` is unbound |
| Session.LinklessCardInheritsExtra | scraper.py:590-616 | a card without a link after an earlier tab opened is kept with that earlier card's classification, type and posting date |
| Session.LinkedCardOwnExtra | scraper.py:590-616 | a card whose tab opens is recorded with its own extras |
| Session.HeaderlessCard | scraper.py:340-342 | a drawer whose header cannot be read has no link, so it is lost or inherits, as above |
| Session.Loop | scraper.py:563-648 | the loop only appends, keeps ids consecutive, and stops for one of the three reasons, each stated |
| Session.ScrapeAll | scraper.py:553-652 | on a fresh scraper the ids run 1..n and each stop reason holds of the page it stopped at |
| Session.ScrapeAllRecords | scraper.py:553-652 | the records are exactly the kept cards of the sorted pages visited, in that order, numbered from 1 |
| Session.OutOfOrderPage | scraper.py:567-638 | two cards listed with the larger index first give the smaller-index card id 1 |
| Session.ScrapeAllPages | scraper.py:563-648 | every visited page had cards, and every one but the last had a next page and stayed under the limit |
| Session.ScrapeAllMaxPages | scraper.py:642-644 | a positive limit bounds the pages visited; a negative one stops after the first page |
| Session.ScrapeAllUnlimited | scraper.py:642-644 | with no limit, None or 0, the loop never stops for the limit |
| Session.ScrapeAllClean | scraper.py:563-648 | with no limit, and every page full of cards that pass, there is one record per card over all pages |
| Session.AsRow | scraper.py:575-629 | the record dict has exactly the sixteen keys, its id and its timeline |
| Session.ExportedStatus | exporter.py:40-43 | an exported record shows its newest event's status, or "N/A" with no events |
| Session.ExportedKeys | exporter.py:47-49 | the exported columns are the record's keys without the timeline, plus the three summary keys |

## Findings

| source | as written | input that shows it | evidently intended | confidence | as-written member | corrected member |
|---|---|---|---|---|---|---|
| scraper.py:315-325 | the link is read after the salary span only when its text contains "per month"; otherwise it is read after the location, which is the salary span itself, and that span holds no link | a fourth span "Rp 5.000.000" without "per month" and a fifth span with a link: `job_url` is "N/A" | the comment at 315-316: whenever the salary span exists, the link is the span after it | medium, not executed | Drawer.NonMonthlySalaryLosesLink | Drawer.CommentedLinkFollowsSalary |

The records in `Session` keep the behaviour as written (`Drawer.JobLink`),
because they model what the program produces. `Drawer.JobLinkAsCommented`
is the corrected lookup. It agrees with the code whenever the salary line
mentions "per month" or there is no salary line.

## Left out

- Selenium and all browser I/O are not modelled: waits, clicks, XPath lookups, tab switching, and login and navigation.
- The cards, drawers and pages are given as data: `Page`, `CardRun`, `InfoBlock` and `Span` stand for what the lookups find.
- The extraction of status history, expiry, and the three extra fields from the second tab is not modelled. They are inputs of `CardRun`.
- Otp.ReadCode: only the format check of one prompt is modelled. The retry loop around it and the page's answer to a code are left out.
- Parser.ParseJob: the clock reading `datetime.now()` is the parameter `now`.
- Session.CardRun: the clock reading for `data_retrieved_at` is the field `retrievedAt`.
- Session.CardRun: `raises` stands for an exception escaping any step after the new-tab step. Which step raised, and the logging, are not modelled.
- Session.ScrapeAll: models a fresh scraper. `jobs_data` is an instance list (scraper.py:30) that a second call would extend, while the ids restart at 1 (`total_jobs` is reset at scraper.py:560).
- CardOrder.ParseInt: `int()` is modelled without Python's 4300-digit limit and with ASCII digits only. Python raises ValueError on a longer numeral and accepts other Unicode decimal digits, so "job-item-\u0663" (ARABIC-INDIC DIGIT THREE) reads as 3 in Python and is rejected here.
- CardOrder.GetIndex: inherits both differences of `CardOrder.ParseInt`. A segment of more than 4300 digits gives 0 in Python, because `get_index` catches the ValueError (scraper.py:220-222), but gives the number here. A segment of non-ASCII decimal digits gives its value in Python and 0 here.
- CardOrder.ParseShowInt: the round trip holds here for every integer; in Python `str()` and `int()` both raise beyond 4300 digits, so it holds there only up to that length.
- Drawer.ApplicantCount: returns the number for any length of digit run. Python's `int()` rejects numerals longer than 4300 digits. That `ValueError` is not caught at scraper.py:448, so such a card would be skipped.
- Text.IsWordChar, Text.IsDigit and Text.Lower: `\w`, `\d`, `isdigit()` and `lower()` are ASCII-only here; Python also accepts or maps other Unicode characters. For example, Python lowers U+212A KELVIN SIGN to 'k', so parser.py:78 rejects "TIDA\u212A ADA SURAT LAMARAN" (a Kelvin sign in place of the K), but `Parser.CoverLetterAfter` does not.
- Exporter.Summarise: `str` on a non-dict entry is Python's built-in `str()`, taken as a parameter.
- CSV writing, JSON export and timestamped file names (exporter.py) are not modelled.
- The command-line interface and configuration (cli.py, configs.py, main.py) are outside this model.
