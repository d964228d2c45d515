/** The homework record and the three string helpers that fill it:
    `extractLecName`, `extractDeadline` and `generateTypeFromId`. */
module Records {
  import opened JsText

  /** The three kinds of assignment. The script stores the Japanese label
      (see `Label`); the model keeps the kind and maps it to its label. */
  datatype HomeworkType = Report | Survey | Test
  {
    function Label(): (r: string)
      ensures r == "レポート" <==> this == Report
      ensures r == "アンケート" <==> this == Survey
      ensures r == "テスト" <==> this == Test
    {
      match this
      case Report => "レポート"
      case Survey => "アンケート"
      case Test => "テスト"
    }
  }

  /** `class Homework`: title, lecture name, kind and deadline text. */
  datatype Homework = Homework(title: string, lecName: string, kind: HomeworkType, deadline: string)

  /** `originalLecName.substring(2, originalLecName.indexOf("["))`: drops the
      two-character prefix and stops before the first `[`. Because
      `substring` clamps and swaps its bounds, a heading without `[` gives
      its first two characters, and a `[` at index 0 or 1 gives the
      characters from that `[` to index 2. */
  function ExtractLecName(original: string): (r: string)
    ensures '[' !in original ==> r == original[..if |original| < 2 then |original| else 2]
    ensures forall k :: 2 <= k < |original| && original[k] == '[' && '[' !in original[..k] ==>
              r == original[2..k] && '[' !in r
    ensures forall k :: 0 <= k < 2 && k < |original| && original[k] == '[' && '[' !in original[..k] ==>
              r == original[k..if |original| < 2 then |original| else 2]
  {
    var k := IndexOf(original, '[');
    assert forall j :: 0 <= j < |original| && original[j] == '[' && '[' !in original[..j] ==> j == k;
    Substring(original, 2, k)
  }

  /** `submitStatus.slice(submitStatus.indexOf(":") + 1)`: the text after
      the first `:`, or the whole text when there is no `:`. */
  function ExtractDeadline(status: string): (r: string)
    ensures |r| <= |status| && r == status[|status| - |r|..]
    ensures ':' !in status ==> r == status
    ensures forall k :: 0 <= k < |status| && status[k] == ':' && ':' !in status[..k] ==> r == status[k + 1..]
  {
    var k := IndexOf(status, ':');
    assert forall j :: 0 <= j < |status| && status[j] == ':' && ':' !in status[..j] ==> j == k;
    Slice(status, k + 1)
  }

  /** `generateTypeFromId`: REP takes priority over ANK; anything else is a test. */
  function GenerateTypeFromId(id: string): (r: HomeworkType)
    ensures r == Report <==> Contains(id, "REP")
    ensures r == Survey <==> !Contains(id, "REP") && Contains(id, "ANK")
    ensures r == Test <==> !Contains(id, "REP") && !Contains(id, "ANK")
  {
    if Contains(id, "REP") then Report
    else if Contains(id, "ANK") then Survey
    else Test
  }

  /** `targetTypes.some(t => id.includes(t))`: the id names an assignment
      type. */
  predicate HasTypeToken(id: string)
  {
    Contains(id, "REP") || Contains(id, "ANK") || Contains(id, "TES")
  }

  /** For the ids the fetcher accepts (they contain REP, ANK or TES), the
      fallback to Test is reached only by an id that contains TES. */
  lemma FlaggedIdType(id: string)
    requires HasTypeToken(id)
    ensures GenerateTypeFromId(id) == Test ==> Contains(id, "TES")
  {
  }

  /** The heading `> Linear Algebra [EN101]` names the lecture `Linear Algebra `. */
  lemma LecNameExample()
    ensures ExtractLecName("> Linear Algebra [EN101]") == "Linear Algebra "
  {
    var s := "> Linear Algebra [EN101]";
    assert '[' !in s[..17] by {
      assert s[..17] == "> Linear Algebra ";
    }
    assert s[2..17] == "Linear Algebra " by {
      assert s[..17] == "> Linear Algebra ";
      assert s[2..17] == s[..17][2..];
    }
    assert s[17] == '[';
  }

  /** A deadline cell `期限:2024-01-10 23:59` gives `2024-01-10 23:59`. */
  lemma DeadlineExample()
    ensures ExtractDeadline("期限:2024-01-10 23:59") == "2024-01-10 23:59"
  {
    var s := "期限:2024-01-10 23:59";
    assert ':' !in s[..2] by {
      assert s[..2] == "期限";
    }
    assert s[2] == ':';
    assert s[3..] == "2024-01-10 23:59";
  }
}
