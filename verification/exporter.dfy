/** The export-side normalisation (exporter.py): each record's status
    timeline is collapsed into three summary fields, and the CSV header is the
    sorted union of the normalised records' keys. Records are Python dicts, so
    they are modelled as maps from key to a dynamically typed value. */
module Exporter {
  import opened Text
  import opened Wrappers

  /** A Python value as it can occur in a scraped record. */
  datatype Value =
    | Str(s: string)
    | Int(i: int)
    | Bool(b: bool)
    | Null
    | List(items: seq<Value>)
    | Dict(fields: map<string, Value>)

  type Record = map<string, Value>

  /** The default of every summary field. */
  const NA: Value := Str("N/A")

  const TimelineKey: string := "application_status"
  const StatusKey: string := "status"
  const UpdatedKey: string := "updated_at"
  const AppliedKey: string := "job_applied_at"

  /** The three keys normalisation writes into every record. */
  const SummaryKeys: set<string> := {StatusKey, UpdatedKey, AppliedKey}

  /** `d.get(key, default)`. */
  function Get(d: map<string, Value>, key: string, default: Value): Value {
    if key in d then d[key] else default
  }

  /** The three values a record's timeline collapses into. */
  datatype Summary = Summary(status: Value, updatedAt: Value, appliedAt: Value)

  /** The summary of the value stored under "application_status" (absent is
      None). Only a non-empty list is summarised: the first entry gives the
      application date, the last the current status and its date; an entry
      that is not a dict gives "N/A", except that a non-dict last entry is
      rendered with `str` as the status. `str` is Python's built-in `str()`. */
  function Summarise(timeline: Value, str: Value -> string): (r: Summary)
    ensures !timeline.List? || timeline.items == [] ==> r == Summary(NA, NA, NA)
    // the application date: the first entry's "updated_at", else "N/A"
    ensures timeline.List? && timeline.items != [] ==>
              var first := timeline.items[0];
              && (first.Dict? && UpdatedKey in first.fields ==> r.appliedAt == first.fields[UpdatedKey])
              && (first.Dict? && UpdatedKey !in first.fields ==> r.appliedAt == NA)
              && (!first.Dict? ==> r.appliedAt == NA)
    // the current status and its date: the last entry's, each "N/A" when missing
    ensures timeline.List? && timeline.items != [] ==>
              var last := timeline.items[|timeline.items| - 1];
              && (last.Dict? && StatusKey in last.fields ==> r.status == last.fields[StatusKey])
              && (last.Dict? && StatusKey !in last.fields ==> r.status == NA)
              && (last.Dict? && UpdatedKey in last.fields ==> r.updatedAt == last.fields[UpdatedKey])
              && (last.Dict? && UpdatedKey !in last.fields ==> r.updatedAt == NA)
    // a last entry that is not a dict is shown with `str`, and has no date
    ensures timeline.List? && timeline.items != [] ==>
              var last := timeline.items[|timeline.items| - 1];
              !last.Dict? ==> r.status == Str(str(last)) && r.updatedAt == NA
  {
    if timeline.List? && |timeline.items| > 0 then
      var first := timeline.items[0];
      var last := timeline.items[|timeline.items| - 1];
      Summary(
        status := if last.Dict? then Get(last.fields, StatusKey, NA) else Str(str(last)),
        updatedAt := if last.Dict? then Get(last.fields, UpdatedKey, NA) else NA,
        appliedAt := if first.Dict? then Get(first.fields, UpdatedKey, NA) else NA
      )
    else
      Summary(NA, NA, NA)
  }

  /** One status event as the scraper records it. */
  function Event(status: string, updatedAt: string): Value {
    Dict(map[StatusKey := Str(status), UpdatedKey := Str(updatedAt)])
  }

  /** A timeline of (status, date) events, oldest first. */
  function Timeline(events: seq<(string, string)>): (r: Value)
    ensures r.List? && |r.items| == |events|
    ensures forall i :: 0 <= i < |events| ==> r.items[i] == Event(events[i].0, events[i].1)
  {
    List(seq(|events|, i requires 0 <= i < |events| => Event(events[i].0, events[i].1)))
  }

  /** On a scraped timeline the summary is: current status and its date from
      the newest event, application date from the oldest. */
  lemma SummariseEvents(events: seq<(string, string)>, str: Value -> string)
    requires |events| > 0
    ensures var r := Summarise(Timeline(events), str);
            && r.status == Str(events[|events| - 1].0)
            && r.updatedAt == Str(events[|events| - 1].1)
            && r.appliedAt == Str(events[0].1)
  {
  }

  /** A new event moves the current status and its date to the new event and
      leaves the application date where it was. */
  lemma SummariseAppend(events: seq<(string, string)>, e: (string, string), str: Value -> string)
    requires |events| > 0
    ensures var before, after := Summarise(Timeline(events), str), Summarise(Timeline(events + [e]), str);
            && after.status == Str(e.0)
            && after.updatedAt == Str(e.1)
            && after.appliedAt == before.appliedAt
  {
    SummariseEvents(events, str);
    SummariseEvents(events + [e], str);
  }

  /** The timeline of a record, `None` when the key is missing. */
  function TimelineOf(job: Record): Value {
    if TimelineKey in job then job[TimelineKey] else Null
  }

  /** `{**job_copy, **results}` for one job: the timeline key is dropped and
      the three summary keys are written over whatever the record held. */
  function NormalizeRecord(job: Record, str: Value -> string): (r: Record)
    ensures r.Keys == (job.Keys - {TimelineKey}) + SummaryKeys
    ensures TimelineKey !in r
    ensures forall k :: k in job && k != TimelineKey && k !in SummaryKeys ==> k in r && r[k] == job[k]
    ensures var s := Summarise(TimelineOf(job), str);
            r[StatusKey] == s.status && r[UpdatedKey] == s.updatedAt && r[AppliedKey] == s.appliedAt
  {
    var s := Summarise(TimelineOf(job), str);
    (job - {TimelineKey})[StatusKey := s.status][UpdatedKey := s.updatedAt][AppliedKey := s.appliedAt]
  }

  /** A record with no timeline, or an empty or non-list one, gets "N/A" in
      all three summary fields. */
  lemma NormalizeWithoutTimeline(job: Record, str: Value -> string)
    requires TimelineKey !in job || !job[TimelineKey].List? || job[TimelineKey].items == []
    ensures var r := NormalizeRecord(job, str);
            r[StatusKey] == NA && r[UpdatedKey] == NA && r[AppliedKey] == NA
  {
  }

  /** `_normalize_application_status`: one normalised record per job, in the
      same order. */
  function Normalize(jobs: seq<Record>, str: Value -> string): (r: seq<Record>)
    ensures |r| == |jobs|
    ensures forall i :: 0 <= i < |jobs| ==> r[i] == NormalizeRecord(jobs[i], str)
  {
    seq(|jobs|, i requires 0 <= i < |jobs| => NormalizeRecord(jobs[i], str))
  }

  /** Normalising a list of jobs normalises each part of it independently. */
  lemma NormalizeAppend(a: seq<Record>, b: seq<Record>, str: Value -> string)
    ensures Normalize(a + b, str) == Normalize(a, str) + Normalize(b, str)
  {
    var l, r := Normalize(a + b, str), Normalize(a, str) + Normalize(b, str);
    forall i | 0 <= i < |l| ensures l[i] == r[i] {
      if i < |a| {
        assert (a + b)[i] == a[i];
      } else {
        assert (a + b)[i] == b[i - |a|];
      }
    }
  }

  // ---------------------------------------------------------------------------
  // The CSV header
  // ---------------------------------------------------------------------------

  /** Every key of every record. */
  function AllKeys(recs: seq<Record>): set<string> {
    if recs == [] then {} else AllKeys(recs[..|recs| - 1]) + recs[|recs| - 1].Keys
  }

  /** A key is in the union exactly when some record has it. */
  lemma {:induction false} AllKeysIff(recs: seq<Record>, k: string)
    ensures k in AllKeys(recs) <==> exists i :: 0 <= i < |recs| && k in recs[i]
  {
    if recs != [] {
      var init := recs[..|recs| - 1];
      AllKeysIff(init, k);
      if exists i :: 0 <= i < |recs| && k in recs[i] {
        var i :| 0 <= i < |recs| && k in recs[i];
        if i < |recs| - 1 {
          assert k in init[i];
        }
      }
      if exists i :: 0 <= i < |init| && k in init[i] {
        var i :| 0 <= i < |init| && k in init[i];
        assert k in recs[i];
      }
    }
  }

  predicate StrictlySorted(h: seq<string>) {
    forall i, j :: 0 <= i < j < |h| ==> Less(h[i], h[j])
  }

  lemma LessThanAll(k: string, h: seq<string>)
    requires StrictlySorted(h) && |h| > 0 && Less(k, h[0])
    ensures forall j :: 0 <= j < |h| ==> Less(k, h[j])
  {
    forall j | 0 < j < |h| ensures Less(k, h[j]) {
      LessTransitive(k, h[0], h[j]);
    }
  }

  /** Inserts `k` into a strictly sorted list unless it is already there. */
  function Insert(h: seq<string>, k: string): (r: seq<string>)
    requires StrictlySorted(h)
    ensures StrictlySorted(r)
    ensures forall x :: x in r <==> x in h || x == k
    decreases |h|
  {
    if |h| == 0 then [k]
    else if k == h[0] then h
    else if Less(k, h[0]) then
      LessThanAll(k, h);
      [k] + h
    else
      LessTotal(k, h[0]);
      var t := Insert(h[1..], k);
      assert forall x :: x in t ==> Less(h[0], x);
      [h[0]] + t
  }

  /** The union of the keys of `recs`, accumulated record by record. */
  method UnionKeys(recs: seq<Record>) returns (keys: set<string>)
    ensures forall k :: k in keys <==> exists i :: 0 <= i < |recs| && k in recs[i]
  {
    keys := {};
    var i := 0;
    while i < |recs|
      invariant 0 <= i <= |recs|
      invariant keys == AllKeys(recs[..i])
    {
      assert recs[..i + 1][..i] == recs[..i];
      keys := keys + recs[i].Keys;
      i := i + 1;
    }
    assert recs[..i] == recs;
    forall k ensures k in keys <==> exists i :: 0 <= i < |recs| && k in recs[i] {
      AllKeysIff(recs, k);
    }
  }

  /** `sorted(keys)`: the elements of a set as a strictly ascending list. */
  method SortKeys(keys: set<string>) returns (h: seq<string>)
    ensures StrictlySorted(h)
    ensures forall k :: k in h <==> k in keys
  {
    h := [];
    var rest := keys;
    while rest != {}
      invariant StrictlySorted(h)
      invariant forall k :: k in h || k in rest <==> k in keys
      decreases rest
    {
      var k :| k in rest;
      h := Insert(h, k);
      rest := rest - {k};
    }
  }

  /** The header `_export_to_csv` writes: None for an empty job list (a
      placeholder line is written instead), otherwise the keys of all
      normalised records, each once, in ascending code-point order. */
  method CsvHeader(jobs: seq<Record>, str: Value -> string) returns (header: Option<seq<string>>)
    ensures jobs == [] <==> header == None
    ensures header.Some? ==> StrictlySorted(header.value)
    ensures header.Some? ==> forall k :: k in header.value <==>
              exists i :: 0 <= i < |jobs| && k in NormalizeRecord(jobs[i], str)
    ensures header.Some? ==> StatusKey in header.value && UpdatedKey in header.value && AppliedKey in header.value
    ensures header.Some? ==> TimelineKey !in header.value
  {
    if jobs == [] {
      return None;
    }
    var recs := Normalize(jobs, str);
    var keys := UnionKeys(recs);
    var h := SortKeys(keys);
    assert NormalizeRecord(jobs[0], str) == recs[0];
    return Some(h);
  }
}
