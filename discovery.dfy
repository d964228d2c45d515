/** Lecture discovery, `fetchLecIds`: every timetable cell whose text holds
    the period mark `限` contributes the ids of the anchors in its row that
    carry an `onclick`; the ids are then deduplicated, first occurrence
    first. */
module Discovery {
  import opened Common
  import opened JsText
  import opened OnclickPattern

  /** The period mark that tells a lecture slot from a notice-only cell. */
  const PeriodMark := "限"

  /** A `td` of the timetable: its text, and the `onclick` attribute of each
      anchor in its parent row (None for an anchor that has none). Two
      cells of one row carry the same anchors. */
  datatype TimetableCell = TimetableCell(text: string, rowOnclicks: seq<Option<string>>)

  /** What one anchor pushes: nothing without `onclick`, else its quoted id;
      an `onclick` the pattern does not match throws. */
  function AnchorIds(onclick: Option<string>): Result<seq<string>>
  {
    match onclick
    case None => Success([])
    case Some(v) =>
      match QuotedId(v)
      case None => Failure(UnquotedOnclick(v))
      case Some(id) => Success([id])
  }

  /** What one cell pushes into `duplicatedLecIds`. */
  function CellIds(cell: TimetableCell): Result<seq<string>>
  {
    if Contains(cell.text, PeriodMark) then ConcatMap(cell.rowOnclicks, AnchorIds) else Success([])
  }

  /** `duplicatedLecIds` after the scan of `cells`. */
  function CollectIds(cells: seq<TimetableCell>): Result<seq<string>>
  {
    ConcatMap(cells, CellIds)
  }

  predicate NoDuplicates(s: seq<string>)
  {
    forall i, j :: 0 <= i < j < |s| ==> s[i] != s[j]
  }

  /** `[...new Set(s)]`: each element once, at its first occurrence. */
  function Dedup(s: seq<string>): (r: seq<string>)
    ensures NoDuplicates(r)
    ensures forall x :: x in r <==> x in s
    decreases |s|
  {
    if |s| == 0 then []
    else
      var d := Dedup(s[..|s| - 1]);
      var x := s[|s| - 1];
      assert s == s[..|s| - 1] + [x];
      if x in d then d else d + [x]
  }

  /** The result of `fetchLecIds`. */
  function LectureIds(cells: seq<TimetableCell>): (r: Result<seq<string>>)
    ensures r.Failure? <==> CollectIds(cells).Failure?
    ensures r.Failure? ==> r.fault == CollectIds(cells).fault
    ensures r.Success? ==> NoDuplicates(r.value) && forall x :: x in r.value <==> x in CollectIds(cells).value
  {
    match CollectIds(cells)
    case Failure(f) => Failure(f)
    case Success(ids) => Success(Dedup(ids))
  }

  /** Cell `i` is a lecture slot and anchor `j` of its row carries `onclick`
      text whose capture is `x`. */
  ghost predicate Yields(cells: seq<TimetableCell>, i: int, j: int, x: string)
  {
    0 <= i < |cells| && Contains(cells[i].text, PeriodMark)
    && 0 <= j < |cells[i].rowOnclicks| && cells[i].rowOnclicks[j].Some?
    && QuotedId(cells[i].rowOnclicks[j].value) == Some(x)
  }

  /** Cell `i` is a lecture slot and anchor `j` of its row carries `onclick`
      text the pattern does not match. */
  ghost predicate BadAnchor(cells: seq<TimetableCell>, i: int, j: int)
  {
    0 <= i < |cells| && Contains(cells[i].text, PeriodMark)
    && 0 <= j < |cells[i].rowOnclicks| && cells[i].rowOnclicks[j].Some?
    && QuotedId(cells[i].rowOnclicks[j].value).None?
  }

  /** Discovery throws exactly when a lecture row holds an `onclick` without a
      quoted id: such an anchor is not skipped. */
  lemma LectureIdsFailIff(cells: seq<TimetableCell>)
    ensures LectureIds(cells).Failure? <==> exists i, j :: BadAnchor(cells, i, j)
  {
    ConcatMapFailsIff(cells, CellIds);
    forall i | 0 <= i < |cells|
      ensures CellIds(cells[i]).Failure? <==> exists j :: BadAnchor(cells, i, j)
    {
      var row := cells[i].rowOnclicks;
      ConcatMapFailsIff(row, AnchorIds);
      if Contains(cells[i].text, PeriodMark) {
        assert forall j :: 0 <= j < |row| ==> (AnchorIds(row[j]).Failure? <==> BadAnchor(cells, i, j));
      }
    }
  }

  /** A successful discovery returns, once each, exactly the ids captured
      from the anchors of lecture rows. */
  lemma LectureIdsMembers(cells: seq<TimetableCell>, ids: seq<string>)
    requires LectureIds(cells) == Success(ids)
    ensures NoDuplicates(ids)
    ensures forall x :: x in ids <==> exists i, j :: Yields(cells, i, j, x)
    ensures forall i, j :: 0 <= i < j < |ids| ==>
              IndexOf(CollectIds(cells).value, ids[i]) < IndexOf(CollectIds(cells).value, ids[j])
  {
    var dup := CollectIds(cells).value;
    DedupFirstSeen(dup);
    ConcatMapMembers(cells, CellIds, dup);
    forall x
      ensures x in dup <==> exists i, j :: Yields(cells, i, j, x)
    {
      if x in dup {
        var i :| 0 <= i < |cells| && CellIds(cells[i]).Success? && x in CellIds(cells[i]).value;
        var row := cells[i].rowOnclicks;
        ConcatMapMembers(row, AnchorIds, CellIds(cells[i]).value);
        var j :| 0 <= j < |row| && AnchorIds(row[j]).Success? && x in AnchorIds(row[j]).value;
        assert Yields(cells, i, j, x);
      }
      if exists i, j :: Yields(cells, i, j, x) {
        var i, j :| Yields(cells, i, j, x);
        var row := cells[i].rowOnclicks;
        ConcatMapFailsIff(cells, CellIds);
        assert CellIds(cells[i]).Success?;
        ConcatMapMembers(row, AnchorIds, CellIds(cells[i]).value);
        assert x in AnchorIds(row[j]).value;
      }
    }
  }

  lemma IndexOfExtend(s: seq<string>, x: string, y: string)
    requires y in s
    ensures IndexOf(s + [x], y) == IndexOf(s, y)
  {
    var k := IndexOf(s, y);
    assert (s + [x])[..k] == s[..k];
    IndexOfUnique(s + [x], y, k);
  }

  /** Deduplication keeps first-seen order: the ids come out in the order of
      their first occurrences. */
  lemma {:induction false} DedupFirstSeen(s: seq<string>)
    ensures forall i, j :: 0 <= i < j < |Dedup(s)| ==> IndexOf(s, Dedup(s)[i]) < IndexOf(s, Dedup(s)[j])
    decreases |s|
  {
    if |s| > 0 {
      var init, x := s[..|s| - 1], s[|s| - 1];
      var d := Dedup(init);
      DedupFirstSeen(init);
      assert s == init + [x];
      forall y | y in d ensures IndexOf(s, y) == IndexOf(init, y) {
        IndexOfExtend(init, x, y);
      }
      if x !in d {
        assert x !in init;
        assert s[..|init|] == init;
        IndexOfUnique(s, x, |init|);
        forall i | 0 <= i < |d| ensures IndexOf(s, d[i]) < IndexOf(s, x) {
          assert d[i] in d;
        }
        assert Dedup(s) == d + [x];
      }
    }
  }

  /** Appending the ids of the row of cell `i` extends the scan by one cell. */
  lemma CollectStep(cells: seq<TimetableCell>, i: nat, before: seq<string>, after: seq<string>)
    requires i < |cells| && CollectIds(cells[..i]) == Success(before)
    requires |before| <= |after| && after[..|before|] == before
    requires CellIds(cells[i]) == Success(after[|before|..])
    ensures CollectIds(cells[..i + 1]) == Success(after)
  {
    ConcatMapStep(cells, i, CellIds);
    assert after == before + after[|before|..];
  }

  /** One more anchor of the row extends the row's ids by that anchor's. */
  lemma RowStep(hrefs: seq<Option<string>>, j: nat, pushed: seq<string>)
    requires j < |hrefs| && ConcatMap(hrefs[..j], AnchorIds) == Success(pushed)
    ensures hrefs[j].None? ==> ConcatMap(hrefs[..j + 1], AnchorIds) == Success(pushed)
    ensures hrefs[j].Some? && QuotedId(hrefs[j].value).Some? ==>
              ConcatMap(hrefs[..j + 1], AnchorIds) == Success(pushed + [QuotedId(hrefs[j].value).value])
    ensures hrefs[j].Some? && QuotedId(hrefs[j].value).None? ==>
              ConcatMap(hrefs[..j + 1], AnchorIds) == Failure(UnquotedOnclick(hrefs[j].value))
  {
    ConcatMapStep(hrefs, j, AnchorIds);
    assert pushed + [] == pushed;
  }

  /** `fetchLecIds`: the nested scan pushes every id of every lecture row into
      `duplicatedLecIds` (throwing at an unmatched `onclick`), then keeps the
      first occurrence of each. */
  method FetchLecIds(cells: seq<TimetableCell>) returns (r: Result<seq<string>>)
    ensures r == LectureIds(cells)
  {
    var duplicatedLecIds: seq<string> := [];
    for i := 0 to |cells|
      invariant CollectIds(cells[..i]) == Success(duplicatedLecIds)
    {
      var elt := cells[i];
      ghost var before := duplicatedLecIds;
      if Contains(elt.text, PeriodMark) {
        var hrefs := elt.rowOnclicks;
        assert ConcatMap(hrefs[..0], AnchorIds) == Success([]);
        assert duplicatedLecIds[|before|..] == [];
        for j := 0 to |hrefs|
          invariant |before| <= |duplicatedLecIds| && duplicatedLecIds[..|before|] == before
          invariant ConcatMap(hrefs[..j], AnchorIds) == Success(duplicatedLecIds[|before|..])
        {
          RowStep(hrefs, j, duplicatedLecIds[|before|..]);
          var onclick := hrefs[j];
          if onclick.Some? {
            var lectureId := QuotedId(onclick.value);
            if lectureId.None? {
              ConcatMapPrefixFailure(hrefs, j + 1, AnchorIds);
              ConcatMapStep(cells, i, CellIds);
              ConcatMapPrefixFailure(cells, i + 1, CellIds);
              return Failure(UnquotedOnclick(onclick.value));
            }
            assert (duplicatedLecIds + [lectureId.value])[|before|..] == duplicatedLecIds[|before|..] + [lectureId.value];
            duplicatedLecIds := duplicatedLecIds + [lectureId.value];
          }
        }
        assert hrefs[..|hrefs|] == hrefs;
      } else {
        assert duplicatedLecIds[|before|..] == [];
      }
      CollectStep(cells, i, before, duplicatedLecIds);
    }
    assert cells[..|cells|] == cells;
    r := Success(Dedup(duplicatedLecIds));
  }
}
