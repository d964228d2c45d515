/** Assignment extraction, `fetchHomeworks`: for each lecture id, in order,
    fetch the lecture's page, keep the assignment cells that are open and
    not yet submitted, and pause 500 ms before the next lecture. */
module Assignments {
  import opened Common
  import opened JsText
  import opened Records

  /** The page that lists a lecture's assignments; the id is appended. */
  const LecturePageBase := "https://lms.ynu.ac.jp/lms/homeHoml/linkKougi?kougiId="
  /** The pause between two lectures, in milliseconds. */
  const PauseMs := 500
  const OpenLabel := "公開中"
  const ExtendedLabel := "延長受付中"
  /** Marks a status column that still shows a deadline (not yet submitted). */
  const DeadlineMark := "期限"

  /** A `td` of a lecture page: its `id` attribute, and, from its parent row,
      the texts of the `span`s, of the `td03` cells and of the anchors. */
  datatype PageCell = PageCell(id: Option<string>, spans: seq<string>, statusCells: seq<string>, anchors: seq<string>)

  /** A fetched lecture page: the text of the element after `#home` (None
      when `#home` is absent) and its `td` cells in document order. */
  datatype Page = Page(homeHeading: Option<string>, cells: seq<PageCell>)

  /** What the extraction does with the outside world, in order. */
  datatype Event = Fetch(url: string) | Sleep(ms: nat)

  function LectureUrl(id: string): (url: string)
    ensures |url| == |LecturePageBase| + |id|
    ensures url[..|LecturePageBase|] == LecturePageBase && url[|LecturePageBase|..] == id
  {
    LecturePageBase + id
  }

  /** Distinct lectures are fetched from distinct URLs. */
  lemma LectureUrlInjective(a: string, b: string)
    requires LectureUrl(a) == LectureUrl(b)
    ensures a == b
  {
    assert a == LectureUrl(a)[|LecturePageBase|..];
  }

  predicate IsOpenLabel(s: string)
  {
    s == OpenLabel || s == ExtendedLabel
  }

  /** Some span of the row reads exactly `公開中` or `延長受付中`. */
  predicate IsOpen(spans: seq<string>)
  {
    exists k :: 0 <= k < |spans| && IsOpenLabel(spans[k])
  }

  /** The cell is an assignment cell: its id names a type token. */
  predicate Flagged(c: PageCell)
  {
    c.id.Some? && HasTypeToken(c.id.value)
  }

  /** The row is open and its first status column still shows a deadline. */
  ghost predicate Qualifies(c: PageCell)
  {
    Flagged(c) && |c.statusCells| > 0 && IsOpen(c.spans) && Contains(c.statusCells[0], DeadlineMark)
  }

  /** The cell makes the script throw, given that `#home` exists. */
  ghost predicate Faulty(c: PageCell)
  {
    Flagged(c) && (|c.statusCells| == 0 || (Qualifies(c) && |c.anchors| == 0))
  }

  /** The record a qualifying row produces. */
  ghost function Record(heading: string, c: PageCell): Homework
    requires Qualifies(c) && |c.anchors| > 0
  {
    Homework(c.anchors[0], ExtractLecName(heading), GenerateTypeFromId(c.id.value), ExtractDeadline(c.statusCells[0]))
  }

  /** What one `td` of a lecture page contributes, in the order the script
      evaluates it: the `#home` lookup for every cell, then the id test,
      the status column, and the title anchor only for an open row that
      still shows a deadline. */
  function CellOutcome(heading: Option<string>, c: PageCell): (r: Result<seq<Homework>>)
    ensures r.Failure? <==> heading.None? || Faulty(c)
    ensures heading.None? ==> r == Failure(MissingHome)
    ensures r.Success? ==> |r.value| <= 1
    ensures r.Success? && |r.value| == 1 <==> heading.Some? && Qualifies(c) && |c.anchors| > 0
    ensures r.Success? && |r.value| == 1 ==> r.value[0] == Record(heading.value, c)
  {
    if heading.None? then Failure(MissingHome)
    else if !Flagged(c) then Success([])
    else if |c.statusCells| == 0 then Failure(MissingStatusColumn)
    else if !(IsOpen(c.spans) && Contains(c.statusCells[0], DeadlineMark)) then Success([])
    else if |c.anchors| == 0 then Failure(MissingTitleAnchor)
    else Success([Homework(c.anchors[0], ExtractLecName(heading.value), GenerateTypeFromId(c.id.value),
                           ExtractDeadline(c.statusCells[0]))])
  }

  function CellStep(heading: Option<string>): PageCell -> Result<seq<Homework>>
  {
    c => CellOutcome(heading, c)
  }

  /** The homeworks one page yields, in document order. */
  function CellsHomeworks(heading: Option<string>, cells: seq<PageCell>): Result<seq<Homework>>
  {
    ConcatMap(cells, CellStep(heading))
  }

  function PageHomeworks(p: Page): Result<seq<Homework>>
  {
    CellsHomeworks(p.homeHeading, p.cells)
  }

  function LecturePage(fetch: string -> Page): string -> Result<seq<Homework>>
  {
    id => PageHomeworks(fetch(LectureUrl(id)))
  }

  /** The result of `fetchHomeworks` when `fetch` answers each URL. */
  function Harvest(ids: seq<string>, fetch: string -> Page): (r: Result<seq<Homework>>)
    ensures r.Failure? <==> FirstFailing(ids, fetch) < |ids|
    ensures |ids| == 0 ==> r == Success([])
  {
    var f := LecturePage(fetch);
    ConcatMapFailsIff(ids, f);
    assert forall i :: 0 <= i < |ids| ==> f(ids[i]) == PageHomeworks(fetch(LectureUrl(ids[i])));
    ConcatMap(ids, f)
  }

  /** A page fails exactly when it has a cell but no `#home`, or when an
      assignment cell lacks its status column, or an open, unsubmitted
      one lacks its title anchor. */
  lemma PageFailsIff(heading: Option<string>, cells: seq<PageCell>)
    ensures CellsHomeworks(heading, cells).Failure? <==>
              (|cells| > 0 && heading.None?) || exists i :: 0 <= i < |cells| && Faulty(cells[i])
  {
    ConcatMapFailsIff(cells, CellStep(heading));
    if |cells| > 0 && heading.None? {
      assert CellStep(heading)(cells[0]).Failure?;
    }
    if exists i :: 0 <= i < |cells| && Faulty(cells[i]) {
      var i :| 0 <= i < |cells| && Faulty(cells[i]);
      assert CellStep(heading)(cells[i]).Failure?;
    }
  }

  /** One cell that succeeds yields `h` exactly when it qualifies and `h`
      is its record. */
  lemma CellRecord(heading: string, c: PageCell, h: Homework)
    requires CellOutcome(Some(heading), c).Success?
    ensures h in CellOutcome(Some(heading), c).value <==> Qualifies(c) && |c.anchors| > 0 && h == Record(heading, c)
  {
    var r := CellOutcome(Some(heading), c);
    if h in r.value {
      assert |r.value| == 1;
    }
  }

  /** A page that succeeds yields a record for exactly its qualifying rows. */
  lemma PageRecords(heading: string, cells: seq<PageCell>, hs: seq<Homework>)
    requires CellsHomeworks(Some(heading), cells) == Success(hs)
    ensures forall h :: h in hs <==>
              exists i :: 0 <= i < |cells| && Qualifies(cells[i]) && |cells[i].anchors| > 0 && h == Record(heading, cells[i])
  {
    var f := CellStep(Some(heading));
    ConcatMapMembers(cells, f, hs);
    ConcatMapFailsIff(cells, f);
    forall h
      ensures h in hs <==>
        exists i :: 0 <= i < |cells| && Qualifies(cells[i]) && |cells[i].anchors| > 0 && h == Record(heading, cells[i])
    {
      forall i | 0 <= i < |cells|
        ensures f(cells[i]).Success? && h in f(cells[i]).value <==>
                  Qualifies(cells[i]) && |cells[i].anchors| > 0 && h == Record(heading, cells[i])
      {
        assert f(cells[i]) == CellOutcome(Some(heading), cells[i]);
        CellRecord(heading, cells[i], h);
      }
    }
  }

  /** Records keep document order: a page split in two yields the first
      part's records, then the second's. */
  lemma PageOrder(heading: Option<string>, a: seq<PageCell>, b: seq<PageCell>)
    ensures CellsHomeworks(heading, a + b) == Concat(CellsHomeworks(heading, a), CellsHomeworks(heading, b))
  {
    ConcatMapAppend(a, b, CellStep(heading));
  }

  /** Records keep lecture order: the records of the earlier lectures come
      first, and a failing lecture aborts the rest. */
  lemma HarvestOrder(a: seq<string>, b: seq<string>, fetch: string -> Page)
    ensures Harvest(a + b, fetch) == Concat(Harvest(a, fetch), Harvest(b, fetch))
  {
    ConcatMapAppend(a, b, LecturePage(fetch));
  }

  /** The index of the first lecture whose page fails, or `|ids|`. */
  function FirstFailing(ids: seq<string>, fetch: string -> Page): (k: nat)
    ensures k <= |ids|
    ensures forall j :: 0 <= j < k ==> PageHomeworks(fetch(LectureUrl(ids[j]))).Success?
    ensures k < |ids| ==> PageHomeworks(fetch(LectureUrl(ids[k]))).Failure?
    decreases |ids|
  {
    if |ids| == 0 then 0
    else if PageHomeworks(fetch(LectureUrl(ids[0]))).Failure? then 0
    else
      var k := FirstFailing(ids[1..], fetch);
      assert forall j :: 0 < j <= k ==> ids[j] == ids[1..][j - 1];
      k + 1
  }

  /** The extraction fails exactly when some lecture's page fails, and then
      with the first failing page's fault. */
  lemma HarvestFailure(ids: seq<string>, fetch: string -> Page)
    ensures Harvest(ids, fetch).Failure? <==> FirstFailing(ids, fetch) < |ids|
    ensures FirstFailing(ids, fetch) < |ids| ==>
              Harvest(ids, fetch) == PageHomeworks(fetch(LectureUrl(ids[FirstFailing(ids, fetch)])))
  {
    var f := LecturePage(fetch);
    var k := FirstFailing(ids, fetch);
    ConcatMapFailsIff(ids, f);
    if k < |ids| {
      ConcatMapFirstFailure(ids, k, f);
    } else {
      assert forall j :: 0 <= j < |ids| ==> f(ids[j]) == PageHomeworks(fetch(LectureUrl(ids[j])));
    }
  }

  /** The pacing of a run that fetches every id: fetch, pause, fetch, ...,
      pause, fetch, with no pause after the last. */
  function Pacing(ids: seq<string>): (t: seq<Event>)
    ensures |t| == if |ids| == 0 then 0 else 2 * |ids| - 1
    ensures |ids| > 0 ==> t[0] == Fetch(LectureUrl(ids[0])) && t[|t| - 1] == Fetch(LectureUrl(ids[|ids| - 1]))
    decreases |ids|
  {
    if |ids| == 0 then []
    else
      (if |ids| == 1 then [] else Pacing(ids[..|ids| - 1]) + [Sleep(PauseMs)])
      + [Fetch(LectureUrl(ids[|ids| - 1]))]
  }

  /** The events of a run: up to and including the fetch of the first page
      that fails, or the whole pacing when none does. */
  function HarvestTrace(ids: seq<string>, fetch: string -> Page): (t: seq<Event>)
    ensures |t| <= |Pacing(ids)| && t == Pacing(ids)[..|t|]
    ensures |ids| > 0 ==> |t| > 0 && t[0] == Fetch(LectureUrl(ids[0]))
  {
    var k := FirstFailing(ids, fetch);
    if k == |ids| then Pacing(ids)
    else
      PacingPrefix(ids, k + 1);
      Pacing(ids[..k + 1])
  }

  /** The pacing of the first `n` lectures is a prefix of the full pacing. */
  lemma {:induction false} PacingPrefix(ids: seq<string>, n: nat)
    requires 0 < n <= |ids|
    ensures Pacing(ids[..n]) == Pacing(ids)[..2 * n - 1]
    decreases |ids|
  {
    if n < |ids| {
      var init := ids[..|ids| - 1];
      assert init[..n] == ids[..n];
      PacingPrefix(init, n);
      if |init| > 1 {
        assert Pacing(ids) == Pacing(init) + [Sleep(PauseMs)] + [Fetch(LectureUrl(ids[|ids| - 1]))];
      }
    } else {
      assert ids[..n] == ids;
    }
  }

  /** The pacing in closed form: event `k` is the fetch of lecture `k / 2`
      when `k` is even, and a 500 ms pause when it is odd. */
  lemma {:induction false} PacingAt(ids: seq<string>, k: nat)
    requires k < |Pacing(ids)|
    ensures Pacing(ids)[k] == if k % 2 == 0 then Fetch(LectureUrl(ids[k / 2])) else Sleep(PauseMs)
    decreases |ids|
  {
    if |ids| > 1 {
      var init := ids[..|ids| - 1];
      assert Pacing(ids) == Pacing(init) + [Sleep(PauseMs)] + [Fetch(LectureUrl(ids[|ids| - 1]))];
      if k < |Pacing(init)| {
        PacingAt(init, k);
        assert init[k / 2] == ids[k / 2];
      }
    }
  }

  /** One more lecture adds a pause (unless it is the first) and its fetch. */
  lemma PacingSnoc(ids: seq<string>, x: string)
    ensures Pacing(ids + [x]) ==
              (if |ids| == 0 then [] else Pacing(ids) + [Sleep(PauseMs)]) + [Fetch(LectureUrl(x))]
  {
    var s := ids + [x];
    assert s[..|s| - 1] == ids && s[|s| - 1] == x;
  }

  /** The URLs of the fetches of a trace, in order. */
  function FetchedUrls(t: seq<Event>): seq<string>
    decreases |t|
  {
    if |t| == 0 then []
    else FetchedUrls(t[..|t| - 1]) + (if t[|t| - 1].Fetch? then [t[|t| - 1].url] else [])
  }

  /** The number of pauses of a trace. */
  function Sleeps(t: seq<Event>): nat
    decreases |t|
  {
    if |t| == 0 then 0
    else Sleeps(t[..|t| - 1]) + (if t[|t| - 1].Sleep? then 1 else 0)
  }

  /** The URL of each lecture, in input order. */
  function Urls(ids: seq<string>): (urls: seq<string>)
    ensures |urls| == |ids|
    ensures forall i :: 0 <= i < |ids| ==> urls[i] == LectureUrl(ids[i])
    decreases |ids|
  {
    if |ids| == 0 then [] else Urls(ids[..|ids| - 1]) + [LectureUrl(ids[|ids| - 1])]
  }

  lemma FetchedUrlsAppend(t: seq<Event>, u: seq<Event>)
    ensures FetchedUrls(t + u) == FetchedUrls(t) + FetchedUrls(u)
    ensures Sleeps(t + u) == Sleeps(t) + Sleeps(u)
    decreases |u|
  {
    if |u| == 0 {
      assert t + u == t;
    } else {
      assert (t + u)[..|t + u| - 1] == t + u[..|u| - 1];
      FetchedUrlsAppend(t, u[..|u| - 1]);
    }
  }

  /** A pause and a fetch appended to a trace add one pause and one URL. */
  lemma PauseThenFetch(t: seq<Event>, url: string)
    ensures FetchedUrls(t + [Sleep(PauseMs)] + [Fetch(url)]) == FetchedUrls(t) + [url]
    ensures Sleeps(t + [Sleep(PauseMs)] + [Fetch(url)]) == Sleeps(t) + 1
  {
    var u := t + [Sleep(PauseMs)];
    assert (u + [Fetch(url)])[..|u|] == u;
    assert u[..|t|] == t;
  }

  /** The fetches of the pacing are the lectures' URLs, in input order. */
  lemma {:induction false} PacingUrls(ids: seq<string>)
    ensures FetchedUrls(Pacing(ids)) == Urls(ids)
    decreases |ids|
  {
    if |ids| == 1 {
      var fx := Fetch(LectureUrl(ids[0]));
      assert [fx][..0] == [];
    } else if |ids| > 1 {
      var init := ids[..|ids| - 1];
      PacingUrls(init);
      PauseThenFetch(Pacing(init), LectureUrl(ids[|ids| - 1]));
    }
  }

  /** The pacing pauses once between each two lectures. */
  lemma {:induction false} PacingSleeps(ids: seq<string>)
    ensures Sleeps(Pacing(ids)) == if |ids| == 0 then 0 else |ids| - 1
    decreases |ids|
  {
    if |ids| == 1 {
      var fx := Fetch(LectureUrl(ids[0]));
      assert [fx][..0] == [];
    } else if |ids| > 1 {
      var init := ids[..|ids| - 1];
      PacingSleeps(init);
      PauseThenFetch(Pacing(init), LectureUrl(ids[|ids| - 1]));
    }
  }

  /** Every pause of the pacing lasts 500 ms. */
  lemma {:induction false} PacingPauses(ids: seq<string>)
    ensures forall e :: e in Pacing(ids) && e.Sleep? ==> e.ms == PauseMs
    decreases |ids|
  {
    if |ids| > 1 {
      PacingPauses(ids[..|ids| - 1]);
    }
  }

  /** For N lectures the run fetches their URLs in input order, pauses
      max(N - 1, 0) times, every pause is 500 ms, and the last event is a
      fetch. */
  lemma PacingShape(ids: seq<string>)
    ensures FetchedUrls(Pacing(ids)) == Urls(ids)
    ensures Sleeps(Pacing(ids)) == if |ids| == 0 then 0 else |ids| - 1
    ensures forall e :: e in Pacing(ids) && e.Sleep? ==> e.ms == PauseMs
    ensures |ids| > 0 ==> Pacing(ids)[|Pacing(ids)| - 1] == Fetch(LectureUrl(ids[|ids| - 1]))
  {
    PacingUrls(ids);
    PacingSleeps(ids);
    PacingPauses(ids);
  }

  /** A run that aborts at lecture k has fetched lectures 0..k in order and
      paused once between each two of them. */
  lemma FailedRunShape(ids: seq<string>, fetch: string -> Page)
    requires FirstFailing(ids, fetch) < |ids|
    ensures FetchedUrls(HarvestTrace(ids, fetch)) == Urls(ids[..FirstFailing(ids, fetch) + 1])
    ensures Sleeps(HarvestTrace(ids, fetch)) == FirstFailing(ids, fetch)
  {
    var k := FirstFailing(ids, fetch);
    var run := ids[..k + 1];
    PacingUrls(run);
    PacingSleeps(run);
  }

  /** A page that throws aborts the run at lecture `i`. */
  lemma AbortAt(ids: seq<string>, fetch: string -> Page, i: nat)
    requires i < |ids| && Harvest(ids[..i], fetch).Success?
    requires PageHomeworks(fetch(LectureUrl(ids[i]))).Failure?
    ensures Harvest(ids, fetch) == PageHomeworks(fetch(LectureUrl(ids[i])))
    ensures HarvestTrace(ids, fetch) == Pacing(ids[..i + 1])
  {
    var f := LecturePage(fetch);
    ConcatMapFailsIff(ids[..i], f);
    forall k | 0 <= k < i ensures f(ids[k]).Success? {
      assert ids[..i][k] == ids[k];
    }
    ConcatMapFirstFailure(ids, i, f);
    assert FirstFailing(ids, fetch) == i;
  }

  lemma HarvestStep(ids: seq<string>, fetch: string -> Page, i: nat, before: seq<Homework>, page: seq<Homework>)
    requires i < |ids| && Harvest(ids[..i], fetch) == Success(before)
    requires PageHomeworks(fetch(LectureUrl(ids[i]))) == Success(page)
    ensures Harvest(ids[..i + 1], fetch) == Success(before + page)
  {
    ConcatMapStep(ids, i, LecturePage(fetch));
  }

  lemma CompleteRun(ids: seq<string>, fetch: string -> Page)
    requires Harvest(ids, fetch).Success?
    ensures HarvestTrace(ids, fetch) == Pacing(ids)
  {
    HarvestFailure(ids, fetch);
  }

  /** The body of the loop of `fetchHomeworks` over the `td` cells of a
      page: for an assignment cell, the span loop sets `isOpen`, the first
      `td03` sets `notCompleted`, and an open, unsubmitted row gives its
      record. A missing `#home`, `td03` or anchor throws. */
  method ScanCell(homeHeading: Option<string>, elt: PageCell) returns (r: Result<seq<Homework>>)
    ensures r == CellOutcome(homeHeading, elt)
  {
    var id := elt.id;
    if homeHeading.None? {
      return Failure(MissingHome);
    }
    var originalLecName := homeHeading.value;
    if !(id.Some? && HasTypeToken(id.value)) {
      return Success([]);
    }
    var isOpen := false;
    var notCompleted := false;
    var spans := elt.spans;
    for k := 0 to |spans|
      invariant isOpen <==> exists m :: 0 <= m < k && IsOpenLabel(spans[m])
    {
      if spans[k] == OpenLabel || spans[k] == ExtendedLabel {
        isOpen := true;
      }
    }
    if |elt.statusCells| == 0 {
      return Failure(MissingStatusColumn);
    }
    var submitStatus := elt.statusCells[0];
    if Contains(submitStatus, DeadlineMark) {
      notCompleted := true;
    }
    if isOpen && notCompleted {
      if |elt.anchors| == 0 {
        return Failure(MissingTitleAnchor);
      }
      var title := elt.anchors[0];
      var lecName := ExtractLecName(originalLecName);
      var kind := GenerateTypeFromId(id.value);
      var deadline := ExtractDeadline(submitStatus);
      r := Success([Homework(title, lecName, kind, deadline)]);
    } else {
      r := Success([]);
    }
  }

  /** The loop of `fetchHomeworks` over the `td` cells of one fetched page:
      the records of the cells in document order, or the first throw. */
  method ScanPage(page: Page) returns (r: Result<seq<Homework>>)
    ensures r == PageHomeworks(page)
  {
    var homeworks: seq<Homework> := [];
    var elements := page.cells;
    assert elements[..0] == [];
    for j := 0 to |elements|
      invariant CellsHomeworks(page.homeHeading, elements[..j]) == Success(homeworks)
    {
      ConcatMapStep(elements, j, CellStep(page.homeHeading));
      var found := ScanCell(page.homeHeading, elements[j]);
      if found.Failure? {
        ConcatMapPrefixFailure(elements, j + 1, CellStep(page.homeHeading));
        return found;
      }
      homeworks := homeworks + found.value;
    }
    assert elements[..|elements|] == elements;
    r := Success(homeworks);
  }

  /** The fetch of lecture `i` extends the loop's trace to the pacing of
      the first `i + 1` lectures. */
  lemma TraceStep(ids: seq<string>, i: nat, trace: seq<Event>)
    requires i < |ids|
    requires trace == Pacing(ids[..i]) + (if 0 < i < |ids| then [Sleep(PauseMs)] else [])
    ensures trace + [Fetch(LectureUrl(ids[i]))] == Pacing(ids[..i + 1])
  {
    assert ids[..i + 1] == ids[..i] + [ids[i]];
    PacingSnoc(ids[..i], ids[i]);
  }

  /** One turn of the loop of `fetchHomeworks`: after the fetch of lecture
      `i`, a failing page decides the run, and a succeeding one extends
      the records and the trace to the first `i + 1` lectures. */
  lemma LectureStep(ids: seq<string>, fetch: string -> Page, i: nat, before: seq<Homework>,
                    trace: seq<Event>, found: Result<seq<Homework>>)
    requires i < |ids| && Harvest(ids[..i], fetch) == Success(before)
    requires trace == Pacing(ids[..i]) + (if 0 < i < |ids| then [Sleep(PauseMs)] else [])
    requires found == PageHomeworks(fetch(LectureUrl(ids[i])))
    ensures found.Failure? ==>
              found == Harvest(ids, fetch) && trace + [Fetch(LectureUrl(ids[i]))] == HarvestTrace(ids, fetch)
    ensures found.Success? ==>
              Harvest(ids[..i + 1], fetch) == Success(before + found.value)
              && trace + [Fetch(LectureUrl(ids[i]))] == Pacing(ids[..i + 1])
  {
    TraceStep(ids, i, trace);
    if found.Failure? {
      AbortAt(ids, fetch, i);
    } else {
      HarvestStep(ids, fetch, i, before, found.value);
    }
  }

  /** The end of the loop: every lecture succeeded. */
  lemma RunEnd(ids: seq<string>, fetch: string -> Page, homeworks: seq<Homework>, trace: seq<Event>)
    requires Harvest(ids[..|ids|], fetch) == Success(homeworks)
    requires trace == Pacing(ids[..|ids|])
    ensures Success(homeworks) == Harvest(ids, fetch) && trace == HarvestTrace(ids, fetch)
  {
    assert ids[..|ids|] == ids;
    CompleteRun(ids, fetch);
  }

  /** `fetchHomeworks`: fetch each lecture's page in order, scan its cells,
      collect the records of open, unsubmitted assignments, and pause
      between lectures; any missing element aborts the whole run. */
  method FetchHomeworks(uniqueLecIds: seq<string>, fetch: string -> Page)
    returns (r: Result<seq<Homework>>, trace: seq<Event>)
    ensures r == Harvest(uniqueLecIds, fetch)
    ensures trace == HarvestTrace(uniqueLecIds, fetch)
  {
    var homeworks: seq<Homework> := [];
    var lecNum := |uniqueLecIds|;
    trace := [];
    for i := 0 to lecNum
      invariant Harvest(uniqueLecIds[..i], fetch) == Success(homeworks)
      invariant trace == Pacing(uniqueLecIds[..i]) + (if 0 < i < lecNum then [Sleep(PauseMs)] else [])
    {
      var lecId := uniqueLecIds[i];
      var url := LectureUrl(lecId);
      var document := fetch(url);
      var found := ScanPage(document);
      LectureStep(uniqueLecIds, fetch, i, homeworks, trace, found);
      trace := trace + [Fetch(url)];
      if found.Failure? {
        return found, trace;
      }
      homeworks := homeworks + found.value;
      if i != lecNum - 1 {
        trace := trace + [Sleep(PauseMs)];
      }
    }
    RunEnd(uniqueLecIds, fetch, homeworks, trace);
    r := Success(homeworks);
  }
}
