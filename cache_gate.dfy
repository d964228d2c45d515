/** The cache gate: the page-load IIFE, `onButtonClicked`, `saveToStorage`,
    and the storage clearing done on the login page. The extension's state
    is one stored slot, the presence of a progress bar and the table shown. */
module CacheGate {
  import opened Common
  import opened Records
  import opened Discovery
  import opened Assignments

  /** A refresh less than 15 seconds after the stored time is refused. */
  const RefreshIntervalMs := 15000

  /** The stored blob `{homeworks, unixTime}`, the time in milliseconds. */
  datatype CacheEntry = CacheEntry(homeworks: seq<Homework>, unixTimeMs: int)

  /** A JavaScript number, as far as the gate needs one: arithmetic with
      `undefined` gives NaN, and every comparison with NaN is false. */
  datatype JsNumber = Num(v: int) | NaN

  /** `cachedData.unixTime`: undefined (NaN once subtracted) when storage is empty. */
  function StoredTime(cache: Option<CacheEntry>): JsNumber
  {
    match cache
    case None => NaN
    case Some(entry) => Num(entry.unixTimeMs)
  }

  function Minus(a: JsNumber, b: JsNumber): JsNumber
  {
    if a.Num? && b.Num? then Num(a.v - b.v) else NaN
  }

  predicate Below(a: JsNumber, bound: int)
  {
    a.Num? && a.v < bound
  }

  /** `nowUnixTime - previousUnixTime < 15`: true only for a stored time less
      than 15 s old; an empty store gives NaN, so the refresh goes ahead. */
  function TooSoon(nowMs: int, cache: Option<CacheEntry>): (b: bool)
    ensures b <==> cache.Some? && nowMs - cache.value.unixTimeMs < RefreshIntervalMs
    ensures cache.None? ==> !b
  {
    Below(Minus(Num(nowMs), StoredTime(cache)), RefreshIntervalMs)
  }

  /** The records of one extraction: discovery, then the fetcher. */
  function Extraction(timetable: seq<TimetableCell>, fetch: string -> Page): (r: Result<seq<Homework>>)
    ensures LectureIds(timetable).Failure? ==> r == Failure(LectureIds(timetable).fault)
    ensures LectureIds(timetable).Success? ==>
              (r.Failure? <==> FirstFailing(LectureIds(timetable).value, fetch) < |LectureIds(timetable).value|)
  {
    match LectureIds(timetable)
    case Failure(f) => Failure(f)
    case Success(ids) => Harvest(ids, fetch)
  }

  /** The fetches and pauses of one extraction; none when discovery throws. */
  function ExtractionTrace(timetable: seq<TimetableCell>, fetch: string -> Page): (t: seq<Event>)
    ensures LectureIds(timetable).Failure? ==> t == []
    ensures LectureIds(timetable).Success? ==>
              |t| <= |Pacing(LectureIds(timetable).value)| && t == Pacing(LectureIds(timetable).value)[..|t|]
  {
    match LectureIds(timetable)
    case Failure(_) => []
    case Success(ids) => HarvestTrace(ids, fetch)
  }

  /** The fetcher started (so its progress bar was added) and then threw
      (so the bar was never removed). */
  predicate LeavesProgress(timetable: seq<TimetableCell>, fetch: string -> Page)
  {
    LectureIds(timetable).Success? && Extraction(timetable, fetch).Failure?
  }

  datatype LoadOutcome = ServedFromCache | Extracted(homeworks: seq<Homework>) | LoadAborted(fault: Fault)

  datatype RefreshOutcome =
    | Ignored                             // a progress bar is present
    | Warned                              // the alert about too frequent updates
    | Refreshed(homeworks: seq<Homework>)
    | RefreshAborted(fault: Fault)

  class Extension {
    /** `chrome.storage.local`: empty, or the last saved entry. */
    var cache: Option<CacheEntry>
    /** A `<progress>` element is in the page. */
    var loading: bool
    /** The injected table, if any, and the records it lists. */
    var table: Option<seq<Homework>>

    /** A page is opened: storage holds what earlier pages saved. */
    constructor (stored: Option<CacheEntry>)
      ensures cache == stored && !loading && table == None
    {
      cache := stored;
      loading := false;
      table := None;
    }

    /** `saveToStorage`: overwrites the slot with the records and the time. */
    method Save(homeworks: seq<Homework>, nowMs: int)
      modifies this`cache
      ensures cache == Some(CacheEntry(homeworks, nowMs))
    {
      cache := Some(CacheEntry(homeworks, nowMs));
    }

    /** `chrome.storage.local.clear()`, run on the login page (js/background.js). */
    method Clear()
      modifies this`cache
      ensures cache == None
    {
      cache := None;
    }

    /** `fetchLecIds` then `fetchHomeworks`, the latter with its progress bar,
        which only a run that completes removes. */
    method Extract(timetable: seq<TimetableCell>, fetch: string -> Page)
      returns (r: Result<seq<Homework>>, trace: seq<Event>)
      modifies this`loading
      ensures r == Extraction(timetable, fetch)
      ensures trace == ExtractionTrace(timetable, fetch)
      ensures loading == (old(loading) || LeavesProgress(timetable, fetch))
    {
      var ids := FetchLecIds(timetable);
      if ids.Failure? {
        return Failure(ids.fault), [];
      }
      var wasLoading := loading;
      loading := true;
      r, trace := FetchHomeworks(ids.value, fetch);
      if r.Success? {
        loading := wasLoading;
      }
    }

    /** The IIFE run when the page loads: any stored entry is shown as it is,
        with no extraction; an empty store runs the extraction, shows the
        records and saves them with the time of saving. */
    method Load(timetable: seq<TimetableCell>, fetch: string -> Page, savedAtMs: int)
      returns (outcome: LoadOutcome, trace: seq<Event>)
      modifies this
      ensures old(cache).Some? ==>
                outcome == ServedFromCache && trace == [] && table == Some(old(cache).value.homeworks)
                && cache == old(cache) && loading == old(loading)
      ensures old(cache).None? ==>
                trace == ExtractionTrace(timetable, fetch)
                && loading == (old(loading) || LeavesProgress(timetable, fetch))
                && match Extraction(timetable, fetch)
                   case Success(hs) =>
                     outcome == Extracted(hs) && table == Some(hs) && cache == Some(CacheEntry(hs, savedAtMs))
                   case Failure(f) =>
                     outcome == LoadAborted(f) && table == old(table) && cache == old(cache)
    {
      if cache.Some? {
        table := Some(cache.value.homeworks);
        return ServedFromCache, [];
      }
      var r;
      r, trace := Extract(timetable, fetch);
      if r.Failure? {
        return LoadAborted(r.fault), trace;
      }
      table := Some(r.value);
      Save(r.value, savedAtMs);
      outcome := Extracted(r.value);
    }

    /** `onButtonClicked`: ignored while a progress bar is present; refused
        with a warning when the stored time is less than 15 s before
        `nowMs`; otherwise removes the table (throwing when there is none),
        extracts, shows and saves with the time of saving. */
    method Refresh(timetable: seq<TimetableCell>, fetch: string -> Page, nowMs: int, savedAtMs: int)
      returns (outcome: RefreshOutcome, trace: seq<Event>)
      modifies this
      ensures old(loading) ==> outcome == Ignored && trace == [] && unchanged(this)
      ensures !old(loading) && TooSoon(nowMs, old(cache)) ==>
                outcome == Warned && trace == [] && unchanged(this)
      ensures !old(loading) && !TooSoon(nowMs, old(cache)) && old(table).None? ==>
                outcome == RefreshAborted(MissingTable) && trace == [] && unchanged(this)
      ensures !old(loading) && !TooSoon(nowMs, old(cache)) && old(table).Some? ==>
                trace == ExtractionTrace(timetable, fetch)
                && loading == LeavesProgress(timetable, fetch)
                && match Extraction(timetable, fetch)
                   case Success(hs) =>
                     outcome == Refreshed(hs) && table == Some(hs) && cache == Some(CacheEntry(hs, savedAtMs))
                   case Failure(f) =>
                     outcome == RefreshAborted(f) && table == None && cache == old(cache)
    {
      if loading {
        return Ignored, [];
      }
      if TooSoon(nowMs, cache) {
        return Warned, [];
      }
      if table.None? {
        return RefreshAborted(MissingTable), [];
      }
      table := None;
      var r;
      r, trace := Extract(timetable, fetch);
      if r.Failure? {
        return RefreshAborted(r.fault), trace;
      }
      table := Some(r.value);
      Save(r.value, savedAtMs);
      outcome := Refreshed(r.value);
    }
  }

  /** Loading a page twice over the same stored entry shows the same table
      both times and fetches nothing. */
  method LoadTwice(stored: CacheEntry, timetable: seq<TimetableCell>, fetch: string -> Page, ms: int)
    returns (first: Option<seq<Homework>>, second: Option<seq<Homework>>, fetched: seq<Event>)
    ensures first == second == Some(stored.homeworks)
    ensures fetched == []
  {
    var page1 := new Extension(Some(stored));
    var _, trace1 := page1.Load(timetable, fetch, ms);
    first := page1.table;
    var page2 := new Extension(page1.cache);
    var _, trace2 := page2.Load(timetable, fetch, ms);
    second := page2.table;
    fetched := trace1 + trace2;
  }

  /** With an entry stored at `t`, a refresh at `t + 10 s` is refused with no
      fetch, and one at `t + 16 s` runs the full extraction. */
  method RateLimit(stored: CacheEntry, timetable: seq<TimetableCell>, fetch: string -> Page)
    returns (early: RefreshOutcome, earlyTrace: seq<Event>, late: RefreshOutcome, lateTrace: seq<Event>)
    ensures early == Warned && earlyTrace == []
    ensures lateTrace == ExtractionTrace(timetable, fetch)
    ensures Extraction(timetable, fetch).Success? ==> late == Refreshed(Extraction(timetable, fetch).value)
  {
    var t := stored.unixTimeMs;
    var page := new Extension(Some(stored));
    var _, _ := page.Load(timetable, fetch, t);
    early, earlyTrace := page.Refresh(timetable, fetch, t + 10000, t + 10000);
    late, lateTrace := page.Refresh(timetable, fetch, t + 16000, t + 16000);
  }
}
