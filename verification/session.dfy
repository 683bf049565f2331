/** The bookkeeping of `scrape_all_jobs` (scraper.py): pages are visited in
    turn, each page's cards in `_sort_job_cards` order; a card that makes it
    through every step becomes a record with the next id, a card that fails
    any step is skipped without using an id; the loop stops at a page without
    cards, after `max_pages` pages, or when the next page cannot be reached.
    The browser is replaced by what each step found out. */
module Session {
  import opened Text
  import opened Wrappers
  import CardOrder
  import Drawer
  import Exporter

  /** The three fields read from the job's own page in a second tab. */
  datatype Extra = Extra(classification: string, jobType: string, postedDate: string)

  /** What processing one card runs into, step by step: `NoDrawer` when
      `_open_drawer` gives nothing; otherwise what the drawer yields
      (`Drawer.ExtractJobInfo` of its header block, `Drawer.DocumentName` of
      the resume and cover-letter elements, `Drawer.ApplicantCount` of the
      applicants sentence), whether the job's page opens in a new tab, the
      three fields read there, the status timeline and expiry flag, the clock
      reading for `data_retrieved_at`, and whether an exception escapes one of
      the later steps. */
  datatype CardRun =
    | NoDrawer
    | Opened(
        info: Drawer.JobInfo,
        tabOpens: bool,
        extra: Extra,
        events: seq<(string, string)>,
        expired: bool,
        resume: string,
        coverLetter: string,
        applicants: Option<nat>,
        retrievedAt: string,
        raises: bool)

  /** One results page: its job cards in page order, and whether
      `_go_to_next_page` succeeds from it. */
  datatype Page = Page(cards: seq<CardOrder.Card<CardRun>>, nextOk: bool)

  /** One entry of `jobs_data`. */
  datatype JobRecord = JobRecord(
    id: nat,
    retrievedAt: string,
    title: string,
    company: string,
    location: string,
    extra: Extra,
    salary: string,
    url: string,
    resume: string,
    coverLetter: string,
    applicants: Option<nat>,
    expired: bool,
    events: seq<(string, string)>)

  /** The loop's state: the records so far, and the last value bound to the
      local `extra_info`, which outlives the card that set it. */
  datatype State = State(records: seq<JobRecord>, extraInfo: Option<Extra>)

  /** `a` is `b` with nothing or some records appended. */
  predicate Extends(b: seq<JobRecord>, a: seq<JobRecord>) {
    |a| <= |b| && b[..|a|] == a
  }

  lemma ExtendsTransitive(c: seq<JobRecord>, b: seq<JobRecord>, a: seq<JobRecord>)
    requires Extends(c, b) && Extends(b, a)
    ensures Extends(c, a)
  {
    assert c[..|a|] == c[..|b|][..|a|];
  }

  /** Ids run 1, 2, ... in append order. */
  predicate IdsInOrder(records: seq<JobRecord>) {
    forall i :: 0 <= i < |records| ==> records[i].id == i + 1
  }

  // ---------------------------------------------------------------------------
  // One card
  // ---------------------------------------------------------------------------

  /** The `extra_info` binding after the new-tab step: rebound when the card
      has a link and its tab opens, unchanged when there is no link. */
  function ExtraAfterTab(c: CardRun, bound: Option<Extra>): Option<Extra>
    requires c.Opened?
  {
    if c.info.url != Drawer.NA && c.tabOpens then Some(c.extra) else bound
  }

  /** Whether the card becomes a record, given the `extra_info` binding
      before it: its drawer opens; if it has a link, that link opens in a new
      tab; no later step raises; and `extra_info` is bound by now (reading it
      unbound raises too). */
  predicate Kept(c: CardRun, bound: Option<Extra>) {
    && c.Opened?
    && (c.info.url == Drawer.NA || c.tabOpens)
    && !c.raises
    && ExtraAfterTab(c, bound).Some?
  }

  /** The record built from a kept card. */
  function MakeRecord(c: CardRun, id: nat, extra: Extra): (r: JobRecord)
    requires c.Opened?
    ensures r.id == id && r.extra == extra
  {
    var info := c.info;
    JobRecord(
      id := id,
      retrievedAt := c.retrievedAt,
      title := info.title,
      company := info.company,
      location := info.location,
      extra := extra,
      salary := info.salary,
      url := info.url,
      resume := c.resume,
      coverLetter := c.coverLetter,
      applicants := c.applicants,
      expired := c.expired,
      events := c.events)
  }

  /** One turn of the card loop. A kept card appends one record with the
      next id; any other card appends nothing. The `extra_info` binding is
      updated as soon as the tab step binds it, even if the card is then
      skipped. */
  function RunCard(c: CardRun, st: State): (r: State)
    ensures Kept(c, st.extraInfo) ==> r.records == st.records + [MakeRecord(c, |st.records| + 1, ExtraAfterTab(c, st.extraInfo).value)]
    ensures !Kept(c, st.extraInfo) ==> r.records == st.records
    ensures c.NoDrawer? ==> r.extraInfo == st.extraInfo
    ensures c.Opened? && c.info.url == Drawer.NA ==> r.extraInfo == st.extraInfo
  {
    match c
    case NoDrawer => st
    case Opened(_, _, _, _, _, _, _, _, _, _) =>
      if c.info.url != Drawer.NA && !c.tabOpens then st
      else
        var bound := ExtraAfterTab(c, st.extraInfo);
        if c.raises || bound.None? then State(st.records, bound)
        else State(st.records + [MakeRecord(c, |st.records| + 1, bound.value)], bound)
  }

  /** The cards of one page, in the order given. */
  function RunCards(cards: seq<CardOrder.Card<CardRun>>, st: State): (r: State)
    ensures Extends(r.records, st.records)
    ensures |r.records| <= |st.records| + |cards|
    ensures IdsInOrder(st.records) ==> IdsInOrder(r.records)
    decreases |cards|
  {
    if |cards| == 0 then st
    else
      var next := RunCard(cards[0].payload, st);
      var r := RunCards(cards[1..], next);
      assert Extends(next.records, st.records);
      ExtendsTransitive(r.records, next.records, st.records);
      r
  }

  /** A card that opens, has a link whose tab opens and raises nothing is
      always kept. */
  predicate GoesThrough(c: CardRun) {
    c.Opened? && c.info.url != Drawer.NA && c.tabOpens && !c.raises
  }

  lemma CleanKept(c: CardRun, bound: Option<Extra>)
    requires GoesThrough(c)
    ensures Kept(c, bound)
  {
  }

  /** A page of clean cards yields one record per card. */
  lemma {:induction false} CleanCardsAllKept(cards: seq<CardOrder.Card<CardRun>>, st: State)
    requires forall i :: 0 <= i < |cards| ==> GoesThrough(cards[i].payload)
    ensures |RunCards(cards, st).records| == |st.records| + |cards|
    decreases |cards|
  {
    if |cards| > 0 {
      CleanKept(cards[0].payload, st.extraInfo);
      CleanCardsAllKept(cards[1..], RunCard(cards[0].payload, st));
    }
  }

  /** A page of cards that never open yields nothing and leaves
      `extra_info` alone. */
  lemma {:induction false} NoDrawerCardsSkipped(cards: seq<CardOrder.Card<CardRun>>, st: State)
    requires forall i :: 0 <= i < |cards| ==> cards[i].payload.NoDrawer?
    ensures RunCards(cards, st) == st
    decreases |cards|
  {
    if |cards| > 0 {
      NoDrawerCardsSkipped(cards[1..], RunCard(cards[0].payload, st));
    }
  }

  // ---------------------------------------------------------------------------
  // The extra_info carry-over
  // ---------------------------------------------------------------------------

  /** A card without a link before any card has bound `extra_info` is lost:
      reading the unbound name raises and the card is skipped. */
  lemma LinklessCardLostWhenUnbound(c: CardRun, records: seq<JobRecord>)
    requires c.Opened? && c.info.url == Drawer.NA
    ensures RunCard(c, State(records, None)) == State(records, None)
  {
  }

  /** A card without a link after some card has bound `extra_info` is kept
      with that earlier card's classification, type and posting date. */
  lemma LinklessCardInheritsExtra(c: CardRun, records: seq<JobRecord>, earlier: Extra)
    requires c.Opened? && c.info.url == Drawer.NA && !c.raises
    ensures var r := RunCard(c, State(records, Some(earlier)));
            |r.records| == |records| + 1 && r.records[|records|].extra == earlier
  {
  }

  /** The outcome of a card whose drawer opened, from what the drawer shows:
      the header block, the resume and cover-letter texts and the applicants
      sentence, each as the page gives it. */
  function ReadCard(
    block: Option<Drawer.InfoBlock>, tabOpens: bool, extra: Extra,
    events: seq<(string, string)>, expired: bool,
    resume: Option<string>, coverLetter: Option<string>, applicants: Option<string>,
    retrievedAt: string, raises: bool): CardRun
  {
    Opened(
      Drawer.ExtractJobInfo(block), tabOpens, extra, events, expired,
      Drawer.DocumentName(resume), Drawer.DocumentName(coverLetter),
      Drawer.ApplicantCount(applicants), retrievedAt, raises)
  }

  /** A drawer whose header block cannot be read shows no link, so its card
      is lost when no earlier card bound `extra_info`, and otherwise kept
      with that card's extras. */
  lemma HeaderlessCard(
    tabOpens: bool, extra: Extra, events: seq<(string, string)>, expired: bool,
    resume: Option<string>, coverLetter: Option<string>, applicants: Option<string>,
    retrievedAt: string, records: seq<JobRecord>, earlier: Extra)
    ensures var c := ReadCard(None, tabOpens, extra, events, expired, resume, coverLetter, applicants, retrievedAt, false);
            && RunCard(c, State(records, None)) == State(records, None)
            && RunCard(c, State(records, Some(earlier))).records[|records|].extra == earlier
  {
    var c := ReadCard(None, tabOpens, extra, events, expired, resume, coverLetter, applicants, retrievedAt, false);
    assert c.info == Drawer.Unknown;
    LinklessCardLostWhenUnbound(c, records);
    LinklessCardInheritsExtra(c, records, earlier);
  }

  /** A card whose link opens gets its own extras, whatever came before. */
  lemma LinkedCardOwnExtra(c: CardRun, st: State)
    requires GoesThrough(c)
    ensures var r := RunCard(c, st);
            |r.records| == |st.records| + 1 && r.records[|st.records|].extra == c.extra
  {
  }

  // ---------------------------------------------------------------------------
  // The page loop
  // ---------------------------------------------------------------------------

  /** Why the loop ended. */
  datatype Stop = NoCards | MaxPages | NoNextPage

  /** What `scrape_all_jobs` ends with: the records, how many pages were
      processed, and why it stopped. */
  datatype Outcome = Outcome(records: seq<JobRecord>, pagesScraped: nat, stop: Stop)

  /** `max_pages and page_num >= max_pages`: None and 0 mean no limit. */
  predicate LimitReached(maxPages: Option<int>, pageNum: nat) {
    maxPages.Some? && maxPages.value != 0 && pageNum >= maxPages.value
  }

  /** The cards of page `k`; pages past the end of `pages` have none. */
  function CardsOf(pages: seq<Page>, k: nat): seq<CardOrder.Card<CardRun>> {
    if k < |pages| then pages[k].cards else []
  }

  /** One page, its cards run in the order given. */
  function RunPage(page: Page, st: State): (r: State)
    ensures Extends(r.records, st.records)
    ensures |r.records| <= |st.records| + |page.cards|
    ensures IdsInOrder(st.records) ==> IdsInOrder(r.records)
  {
    RunCards(page.cards, st)
  }

  /** The loop from page `done + 1` on, `done` pages being behind it; the
      cards of each page are run in the order the page lists them. */
  function Loop(pages: seq<Page>, maxPages: Option<int>, done: nat, st: State): (r: Outcome)
    requires done <= |pages|
    ensures done <= r.pagesScraped <= |pages|
    ensures Extends(r.records, st.records)
    ensures IdsInOrder(st.records) ==> IdsInOrder(r.records)
    ensures r.stop == NoCards ==> |CardsOf(pages, r.pagesScraped)| == 0
    ensures r.stop == MaxPages ==> LimitReached(maxPages, r.pagesScraped)
    ensures r.stop == NoNextPage ==> r.pagesScraped > 0 && !pages[r.pagesScraped - 1].nextOk
    ensures r.stop != NoCards ==> r.pagesScraped > done
    ensures r.pagesScraped == done ==> r.records == st.records
    decreases |pages| - done
  {
    if |CardsOf(pages, done)| == 0 then Outcome(st.records, done, NoCards)
    else
      var next := RunPage(pages[done], st);
      if LimitReached(maxPages, done + 1) then Outcome(next.records, done + 1, MaxPages)
      else if !pages[done].nextOk then Outcome(next.records, done + 1, NoNextPage)
      else
        var r := Loop(pages, maxPages, done + 1, next);
        ExtendsTransitive(r.records, next.records, st.records);
        r
  }

  /** The loop went on past page `k + 1`: that page has a next page and
      did not reach the limit. */
  predicate WentOn(pages: seq<Page>, maxPages: Option<int>, k: nat)
    requires k < |pages|
  {
    pages[k].nextOk && !LimitReached(maxPages, k + 1)
  }

  /** How many pages the loop goes through from page `done` on. It depends
      on the pages and the limit only, not on what the cards yield. */
  function Visited(pages: seq<Page>, maxPages: Option<int>, done: nat): (n: nat)
    requires done <= |pages|
    ensures done <= n <= |pages|
    decreases |pages| - done
  {
    if |CardsOf(pages, done)| == 0 then done
    else if LimitReached(maxPages, done + 1) || !pages[done].nextOk then done + 1
    else Visited(pages, maxPages, done + 1)
  }

  /** The loop's page count is the state-free count. */
  lemma {:induction false} LoopVisited(pages: seq<Page>, maxPages: Option<int>, done: nat, st: State)
    requires done <= |pages|
    ensures Loop(pages, maxPages, done, st).pagesScraped == Visited(pages, maxPages, done)
    decreases |pages| - done
  {
    if |CardsOf(pages, done)| > 0 && !LimitReached(maxPages, done + 1) && pages[done].nextOk {
      LoopVisited(pages, maxPages, done + 1, RunPage(pages[done], st));
    }
  }

  /** Every page the loop goes through has cards, and every one but the last
      has a next page and does not reach the limit. */
  lemma {:induction false} VisitedPages(pages: seq<Page>, maxPages: Option<int>, done: nat)
    requires done <= |pages|
    ensures var n := Visited(pages, maxPages, done);
            && (forall k :: done <= k < n ==> |pages[k].cards| > 0)
            && (forall k :: done <= k < n - 1 ==> WentOn(pages, maxPages, k))
    decreases |pages| - done
  {
    if |CardsOf(pages, done)| > 0 {
      assert |pages[done].cards| > 0;
      if !LimitReached(maxPages, done + 1) && pages[done].nextOk {
        VisitedPages(pages, maxPages, done + 1);
        assert WentOn(pages, maxPages, done);
      }
    }
  }

  /** With a positive limit, at most that many pages are processed; a
      negative limit stops after the first page. */
  lemma {:induction false} AtMostMaxPages(pages: seq<Page>, m: int, done: nat, st: State)
    requires done <= |pages| && m != 0
    requires done < m || done == 0
    ensures var r := Loop(pages, Some(m), done, st);
            r.pagesScraped <= if m > 0 then m else 1
    decreases |pages| - done
  {
    if |CardsOf(pages, done)| > 0 && !LimitReached(Some(m), done + 1) && pages[done].nextOk {
      AtMostMaxPages(pages, m, done + 1, RunPage(pages[done], st));
    }
  }

  /** Without a limit the loop stops only at a page without cards or a page
      whose next page cannot be reached. */
  lemma {:induction false} UnlimitedStops(pages: seq<Page>, maxPages: Option<int>, done: nat, st: State)
    requires done <= |pages|
    requires maxPages.None? || maxPages == Some(0)
    ensures Loop(pages, maxPages, done, st).stop != MaxPages
    decreases |pages| - done
  {
    if |CardsOf(pages, done)| > 0 && pages[done].nextOk {
      UnlimitedStops(pages, maxPages, done + 1, RunPage(pages[done], st));
    }
  }

  /** When every page has cards and a next page, and there is no limit, the
      loop goes through all pages and stops past the last. */
  lemma {:induction false} AllPagesVisited(pages: seq<Page>, done: nat, st: State)
    requires done <= |pages|
    requires forall k :: done <= k < |pages| ==> |pages[k].cards| > 0 && pages[k].nextOk
    ensures var r := Loop(pages, None, done, st);
            r.pagesScraped == |pages| && r.stop == NoCards
    decreases |pages| - done
  {
    if done < |pages| {
      AllPagesVisited(pages, done + 1, RunPage(pages[done], st));
    }
  }

  /** Every card a page holds is clean. */
  predicate AllClean(page: Page) {
    forall i :: 0 <= i < |page.cards| ==> GoesThrough(page.cards[i].payload)
  }

  /** The number of cards on pages `done` onwards. */
  function TotalCards(pages: seq<Page>, done: nat): nat
    requires done <= |pages|
    decreases |pages| - done
  {
    if done == |pages| then 0 else |pages[done].cards| + TotalCards(pages, done + 1)
  }

  /** Without a limit and with every next page reachable, pages of clean
      cards give one record per card. */
  lemma {:induction false} CleanPagesAllKept(pages: seq<Page>, done: nat, st: State)
    requires done <= |pages|
    requires forall k :: done <= k < |pages| ==> |pages[k].cards| > 0 && pages[k].nextOk && AllClean(pages[k])
    ensures |Loop(pages, None, done, st).records| == |st.records| + TotalCards(pages, done)
    decreases |pages| - done
  {
    if done < |pages| {
      CleanCardsAllKept(pages[done].cards, st);
      CleanPagesAllKept(pages, done + 1, RunPage(pages[done], st));
    }
  }

  // ---------------------------------------------------------------------------
  // scrape_all_jobs
  // ---------------------------------------------------------------------------

  /** Each page with its cards as `_find_job_cards` returns them: sorted by
      `get_index`. */
  function SortPages(pages: seq<Page>): (r: seq<Page>)
    ensures |r| == |pages|
    ensures forall k :: 0 <= k < |pages| ==> r[k] == Page(CardOrder.SortCards(pages[k].cards), pages[k].nextOk)
  {
    seq(|pages|, k requires 0 <= k < |pages| => Page(CardOrder.SortCards(pages[k].cards), pages[k].nextOk))
  }

  /** Sorting keeps the number of cards and the next-page flag of every page. */
  lemma SortPagesShape(pages: seq<Page>)
    ensures forall k :: 0 <= k < |pages| ==>
              |SortPages(pages)[k].cards| == |pages[k].cards| && SortPages(pages)[k].nextOk == pages[k].nextOk
  {
    forall k | 0 <= k < |pages|
      ensures |SortPages(pages)[k].cards| == |pages[k].cards|
    {
      var sorted := CardOrder.SortCards(pages[k].cards);
      assert |sorted| == |multiset(sorted)| == |pages[k].cards|;
    }
  }

  /** `scrape_all_jobs(max_pages)` on a fresh scraper: `jobs_data` starts
      empty and `extra_info` unbound. The result's ids run 1..n; it stops
      at the first page without cards, after a page that reaches the limit,
      or after a page whose next page cannot be reached. */
  function ScrapeAll(pages: seq<Page>, maxPages: Option<int>): (r: Outcome)
    ensures IdsInOrder(r.records)
    ensures r.pagesScraped <= |pages|
    ensures r.pagesScraped == 0 ==> r.records == []
    ensures r.stop == NoCards ==> |CardsOf(pages, r.pagesScraped)| == 0
    ensures r.stop == MaxPages ==> LimitReached(maxPages, r.pagesScraped)
    ensures r.stop == NoNextPage ==> r.pagesScraped > 0 && !pages[r.pagesScraped - 1].nextOk
  {
    SortPagesShape(pages);
    Loop(SortPages(pages), maxPages, 0, State([], None))
  }

  /** Every page `scrape_all_jobs` went through had cards; every one but the
      last had a next page and stayed under the limit. */
  lemma ScrapeAllPages(pages: seq<Page>, maxPages: Option<int>)
    ensures var r := ScrapeAll(pages, maxPages);
            && (forall k :: 0 <= k < r.pagesScraped ==> |pages[k].cards| > 0)
            && (forall k :: 0 <= k < r.pagesScraped - 1 ==> WentOn(pages, maxPages, k))
  {
    var sp := SortPages(pages);
    SortPagesShape(pages);
    LoopVisited(sp, maxPages, 0, State([], None));
    VisitedPages(sp, maxPages, 0);
    var r := ScrapeAll(pages, maxPages);
    assert r == Loop(sp, maxPages, 0, State([], None));
    forall k | 0 <= k < r.pagesScraped ensures |pages[k].cards| > 0 {
      assert |sp[k].cards| > 0;
    }
    forall k | 0 <= k < r.pagesScraped - 1 ensures WentOn(pages, maxPages, k) {
      assert WentOn(sp, maxPages, k);
    }
  }

  /** The limit of `scrape_all_jobs` in the caller's terms. */
  lemma ScrapeAllMaxPages(pages: seq<Page>, m: int)
    requires m != 0
    ensures ScrapeAll(pages, Some(m)).pagesScraped <= if m > 0 then m else 1
  {
    AtMostMaxPages(SortPages(pages), m, 0, State([], None));
  }

  /** With no limit (None or 0) the loop never stops for the limit. */
  lemma ScrapeAllUnlimited(pages: seq<Page>, maxPages: Option<int>)
    requires maxPages.None? || maxPages == Some(0)
    ensures ScrapeAll(pages, maxPages).stop != MaxPages
  {
    UnlimitedStops(SortPages(pages), maxPages, 0, State([], None));
  }

  /** Without a limit, pages that all have clean cards and a next page give
      one record per card, over all pages. */
  lemma ScrapeAllClean(pages: seq<Page>)
    requires forall k :: 0 <= k < |pages| ==> |pages[k].cards| > 0 && pages[k].nextOk && AllClean(pages[k])
    ensures |ScrapeAll(pages, None).records| == TotalCards(pages, 0)
    ensures ScrapeAll(pages, None).pagesScraped == |pages|
  {
    var sp := SortPages(pages);
    SortPagesShape(pages);
    forall k | 0 <= k < |sp| ensures AllClean(sp[k]) {
      SortedStillClean(pages[k]);
    }
    CleanPagesAllKept(sp, 0, State([], None));
    AllPagesVisited(sp, 0, State([], None));
    SameTotal(pages, sp, 0);
  }

  lemma SortedStillClean(page: Page)
    requires AllClean(page)
    ensures AllClean(Page(CardOrder.SortCards(page.cards), page.nextOk))
  {
    var sorted := CardOrder.SortCards(page.cards);
    forall i | 0 <= i < |sorted| ensures GoesThrough(sorted[i].payload) {
      assert sorted[i] in multiset(page.cards);
      var j :| 0 <= j < |page.cards| && page.cards[j] == sorted[i];
    }
  }

  lemma {:induction false} SameTotal(p: seq<Page>, q: seq<Page>, done: nat)
    requires |p| == |q| && done <= |p|
    requires forall k :: 0 <= k < |p| ==> |p[k].cards| == |q[k].cards|
    ensures TotalCards(p, done) == TotalCards(q, done)
    decreases |p| - done
  {
    if done < |p| {
      SameTotal(p, q, done + 1);
    }
  }

  // ---------------------------------------------------------------------------
  // Which cards become records
  // ---------------------------------------------------------------------------

  /** Running two runs of cards back to back is running their concatenation. */
  lemma {:induction false} RunCardsAppend(a: seq<CardOrder.Card<CardRun>>, b: seq<CardOrder.Card<CardRun>>, st: State)
    ensures RunCards(a + b, st) == RunCards(b, RunCards(a, st))
    decreases |a|
  {
    if |a| == 0 {
      assert a + b == b;
    } else {
      assert (a + b)[0] == a[0];
      assert (a + b)[1..] == a[1..] + b;
      RunCardsAppend(a[1..], b, RunCard(a[0].payload, st));
    }
  }

  /** The cards of pages `from` up to `to`, one page after the other. */
  function Flat(pages: seq<Page>, from: nat, to: nat): (r: seq<CardOrder.Card<CardRun>>)
    requires from <= to <= |pages|
    decreases |pages| - from
  {
    if from == to then [] else pages[from].cards + Flat(pages, from + 1, to)
  }

  /** The loop runs the cards of the pages it visits as one run. */
  lemma {:induction false} LoopRunsFlat(pages: seq<Page>, maxPages: Option<int>, done: nat, st: State)
    requires done <= |pages|
    ensures Loop(pages, maxPages, done, st).records == RunCards(Flat(pages, done, Visited(pages, maxPages, done)), st).records
    decreases |pages| - done
  {
    if |CardsOf(pages, done)| > 0 {
      var cards := pages[done].cards;
      var next := RunPage(pages[done], st);
      if LimitReached(maxPages, done + 1) || !pages[done].nextOk {
        assert Flat(pages, done, done + 1) == cards + [];
        assert cards + [] == cards;
      } else {
        var v := Visited(pages, maxPages, done + 1);
        LoopRunsFlat(pages, maxPages, done + 1, next);
        assert Flat(pages, done, v) == cards + Flat(pages, done + 1, v);
        RunCardsAppend(cards, Flat(pages, done + 1, v), st);
      }
    }
  }

  /** A card whose new tab opened: it binds `extra_info` to its own extras. */
  predicate Binds(c: CardRun) {
    c.Opened? && c.info.url != Drawer.NA && c.tabOpens
  }

  /** The `extra_info` binding just before card `i` of a run: the extras of
      the last earlier card whose tab opened, or `init` when there is none. */
  function BindingBefore(q: seq<CardOrder.Card<CardRun>>, i: nat, init: Option<Extra>): (r: Option<Extra>)
    requires i <= |q|
    ensures r != init ==> exists j :: 0 <= j < i && Binds(q[j].payload) && r == Some(q[j].payload.extra)
  {
    if i == 0 then init
    else if Binds(q[i - 1].payload) then Some(q[i - 1].payload.extra)
    else BindingBefore(q, i - 1, init)
  }

  /** The kept cards among the first `n` of a run, in run order, each with
      the extras its record is given. */
  function KeptAmong(q: seq<CardOrder.Card<CardRun>>, n: nat, init: Option<Extra>): (r: seq<(CardRun, Extra)>)
    requires n <= |q|
    ensures |r| <= n
    ensures forall p :: p in r ==> p.0.Opened?
  {
    if n == 0 then []
    else
      var c, b := q[n - 1].payload, BindingBefore(q, n - 1, init);
      KeptAmong(q, n - 1, init) + (if Kept(c, b) then [(c, ExtraAfterTab(c, b).value)] else [])
  }

  /** The records made from kept cards, numbered 1, 2, ... in order. */
  function Numbered(kept: seq<(CardRun, Extra)>): (r: seq<JobRecord>)
    requires forall p :: p in kept ==> p.0.Opened?
    ensures |r| == |kept| && IdsInOrder(r)
  {
    seq(|kept|, i requires 0 <= i < |kept| => assert kept[i] in kept; MakeRecord(kept[i].0, i + 1, kept[i].1))
  }

  lemma NumberedSnoc(kept: seq<(CardRun, Extra)>, c: CardRun, e: Extra)
    requires forall p :: p in kept ==> p.0.Opened?
    requires c.Opened?
    ensures Numbered(kept + [(c, e)]) == Numbered(kept) + [MakeRecord(c, |kept| + 1, e)]
  {
    var k := kept + [(c, e)];
    forall i | 0 <= i < |kept| ensures k[i] == kept[i] {
    }
  }

  /** Running the first `n` cards of a run from an empty list builds the
      numbered records of the kept ones, and leaves `extra_info` as the last
      opened tab bound it. */
  lemma {:induction false} RunCardsKeeps(q: seq<CardOrder.Card<CardRun>>, n: nat, init: Option<Extra>)
    requires n <= |q|
    ensures RunCards(q[..n], State([], init)) == State(Numbered(KeptAmong(q, n, init)), BindingBefore(q, n, init))
  {
    if n == 0 {
      assert q[..0] == [];
    } else {
      RunCardsKeeps(q, n - 1, init);
      RunCardsSnoc(q, n, State([], init));
      KeepStep(q, n, init);
    }
  }

  /** Running one more card of a run. */
  lemma RunCardsSnoc(q: seq<CardOrder.Card<CardRun>>, n: nat, st: State)
    requires 0 < n <= |q|
    ensures RunCards(q[..n], st) == RunCard(q[n - 1].payload, RunCards(q[..n - 1], st))
  {
    assert q[..n] == q[..n - 1] + [q[n - 1]];
    RunCardsAppend(q[..n - 1], [q[n - 1]], st);
    assert [q[n - 1]][1..] == [];
  }

  /** One card moves the reference run exactly as `RunCard` moves the state. */
  lemma KeepStep(q: seq<CardOrder.Card<CardRun>>, n: nat, init: Option<Extra>)
    requires 0 < n <= |q|
    ensures RunCard(q[n - 1].payload, State(Numbered(KeptAmong(q, n - 1, init)), BindingBefore(q, n - 1, init)))
            == State(Numbered(KeptAmong(q, n, init)), BindingBefore(q, n, init))
  {
    var c, b := q[n - 1].payload, BindingBefore(q, n - 1, init);
    var k := KeptAmong(q, n - 1, init);
    if Kept(c, b) {
      NumberedSnoc(k, c, ExtraAfterTab(c, b).value);
    } else {
      assert KeptAmong(q, n, init) == k + [];
    }
  }

  /** The cards `scrape_all_jobs` processes, in order: the cards of each
      page it visits, as `_sort_job_cards` orders them. */
  function Queue(pages: seq<Page>, maxPages: Option<int>): (r: seq<CardOrder.Card<CardRun>>)
  {
    var sp := SortPages(pages);
    Flat(sp, 0, Visited(sp, maxPages, 0))
  }

  /** The records of `scrape_all_jobs` are the kept cards of the sorted pages
      it visits, in that order, numbered from 1; `extra_info` starts unbound. */
  lemma ScrapeAllRecords(pages: seq<Page>, maxPages: Option<int>)
    ensures var q := Queue(pages, maxPages);
            ScrapeAll(pages, maxPages).records == Numbered(KeptAmong(q, |q|, None))
  {
    var sp := SortPages(pages);
    var q := Queue(pages, maxPages);
    LoopRunsFlat(sp, maxPages, 0, State([], None));
    RunCardsKeeps(q, |q|, None);
    assert q[..|q|] == q;
  }

  /** Two cards listed out of index order on a single page come out as two
      records in index order: the card with the smaller index gets id 1. */
  lemma OutOfOrderPage(a: CardOrder.Card<CardRun>, b: CardOrder.Card<CardRun>, nextOk: bool, maxPages: Option<int>)
    requires GoesThrough(a.payload) && GoesThrough(b.payload)
    requires CardOrder.Key(b) < CardOrder.Key(a)
    ensures ScrapeAll([Page([a, b], nextOk)], maxPages).records
            == [MakeRecord(b.payload, 1, b.payload.extra), MakeRecord(a.payload, 2, a.payload.extra)]
  {
    var pages := [Page([a, b], nextOk)];
    CardOrder.SortPair(a, b);
    var sp := SortPages(pages);
    assert sp == [Page([b, a], nextOk)];
    TwoCardPage(b, a, nextOk, maxPages);
    ScrapeAllRecords(pages, maxPages);
  }

  /** The run of a single visited page of two cards that both go through. */
  lemma TwoCardPage(x: CardOrder.Card<CardRun>, y: CardOrder.Card<CardRun>, nextOk: bool, maxPages: Option<int>)
    requires GoesThrough(x.payload) && GoesThrough(y.payload)
    ensures var sp := [Page([x, y], nextOk)];
            var q := Flat(sp, 0, Visited(sp, maxPages, 0));
            Numbered(KeptAmong(q, |q|, None))
            == [MakeRecord(x.payload, 1, x.payload.extra), MakeRecord(y.payload, 2, y.payload.extra)]
  {
    var sp := [Page([x, y], nextOk)];
    assert Visited(sp, maxPages, 0) == 1;
    var q := Flat(sp, 0, 1);
    assert Flat(sp, 1, 1) == [];
    assert q == [x, y] + [] == [x, y];
    assert KeptAmong(q, 1, None) == [(x.payload, x.payload.extra)];
    assert BindingBefore(q, 1, None) == Some(x.payload.extra);
    assert KeptAmong(q, 2, None) == [(x.payload, x.payload.extra), (y.payload, y.payload.extra)];
  }

  // ---------------------------------------------------------------------------
  // A record as a dict
  // ---------------------------------------------------------------------------

  /** The platform name every record carries. */
  const Platform: string := "JobStreet"

  /** The keys of `job_info` once it is filled. */
  const RowKeys: set<string> := {
    "id", "job_platform", "data_retrieved_at", "job_title", "company_name",
    "job_location", "job_classification", "job_type", "job_posted_date",
    "salary_range", "job_url", "resume", "cover_letter", "total_applicants",
    "is_expired", Exporter.TimelineKey
  }

  /** `job_info` as the dict handed to the exporter; a missing applicant
      count is written "N/A". */
  function AsRow(r: JobRecord): (row: Exporter.Record)
    ensures row.Keys == RowKeys
    ensures row["id"] == Exporter.Int(r.id)
    ensures row[Exporter.TimelineKey] == Exporter.Timeline(r.events)
  {
    map[
      "id" := Exporter.Int(r.id),
      "job_platform" := Exporter.Str(Platform),
      "data_retrieved_at" := Exporter.Str(r.retrievedAt),
      "job_title" := Exporter.Str(r.title),
      "company_name" := Exporter.Str(r.company),
      "job_location" := Exporter.Str(r.location),
      "job_classification" := Exporter.Str(r.extra.classification),
      "job_type" := Exporter.Str(r.extra.jobType),
      "job_posted_date" := Exporter.Str(r.extra.postedDate),
      "salary_range" := Exporter.Str(r.salary),
      "job_url" := Exporter.Str(r.url),
      "resume" := Exporter.Str(r.resume),
      "cover_letter" := Exporter.Str(r.coverLetter),
      "total_applicants" := (if r.applicants.Some? then Exporter.Int(r.applicants.value) else Exporter.NA),
      "is_expired" := Exporter.Bool(r.expired),
      Exporter.TimelineKey := Exporter.Timeline(r.events)
    ]
  }

  /** A record whose timeline was built from scraped events exports the
      newest event's status and date and the oldest event's date, or "N/A"
      three times when there were no events. */
  lemma NormalizeScrapedTimeline(row: Exporter.Record, events: seq<(string, string)>, str: Exporter.Value -> string)
    requires Exporter.TimelineKey in row && row[Exporter.TimelineKey] == Exporter.Timeline(events)
    ensures var n := Exporter.NormalizeRecord(row, str);
            && (|events| > 0 ==>
                  && n[Exporter.StatusKey] == Exporter.Str(events[|events| - 1].0)
                  && n[Exporter.UpdatedKey] == Exporter.Str(events[|events| - 1].1)
                  && n[Exporter.AppliedKey] == Exporter.Str(events[0].1))
            && (|events| == 0 ==>
                  && n[Exporter.StatusKey] == Exporter.NA
                  && n[Exporter.UpdatedKey] == Exporter.NA
                  && n[Exporter.AppliedKey] == Exporter.NA)
  {
    assert Exporter.TimelineOf(row) == Exporter.Timeline(events);
    if |events| > 0 {
      Exporter.SummariseEvents(events, str);
    }
  }

  /** Normalising keeps every field outside the timeline and the summary. */
  lemma NormalizeKeepsField(row: Exporter.Record, k: string, str: Exporter.Value -> string)
    requires k in row && k != Exporter.TimelineKey && k !in Exporter.SummaryKeys
    ensures k in Exporter.NormalizeRecord(row, str) && Exporter.NormalizeRecord(row, str)[k] == row[k]
  {
  }

  /** The columns a scraped record exports: its own fields without the
      timeline, plus the three summary fields. */
  lemma ExportedKeys(r: JobRecord, str: Exporter.Value -> string)
    ensures Exporter.NormalizeRecord(AsRow(r), str).Keys == (RowKeys - {Exporter.TimelineKey}) + Exporter.SummaryKeys
  {
  }

  /** Exporting a scraped record keeps its id. */
  lemma ExportedId(r: JobRecord, str: Exporter.Value -> string)
    ensures Exporter.NormalizeRecord(AsRow(r), str)["id"] == Exporter.Int(r.id)
  {
    assert "id" != Exporter.TimelineKey && "id" !in Exporter.SummaryKeys;
    NormalizeKeepsField(AsRow(r), "id", str);
  }

  /** Exporting a scraped record reports the newest event's status, or "N/A"
      when it has no events. */
  lemma ExportedStatus(r: JobRecord, str: Exporter.Value -> string)
    ensures var n := Exporter.NormalizeRecord(AsRow(r), str);
            && (|r.events| > 0 ==> n[Exporter.StatusKey] == Exporter.Str(r.events[|r.events| - 1].0))
            && (|r.events| == 0 ==> n[Exporter.StatusKey] == Exporter.NA)
  {
    NormalizeScrapedTimeline(AsRow(r), r.events, str);
  }
}
