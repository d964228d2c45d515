/** The regular expression `/'([^"]+)'/` that `fetchLecIds` applies to an
    anchor's `onclick` text, and the capture `match(...)[1]` it yields.

    A match opens at a `'`, takes one or more characters other than `"`
    and closes at a `'`. The engine tries the leftmost opening first and,
    because `+` is greedy, the farthest closing `'` reachable from it
    without crossing a `"`. */
module OnclickPattern {
  import opened Common

  /** The characters strictly between `p` and `q` can be consumed by
      `[^"]+` when `s[p]` opens and `s[q]` closes the match. */
  ghost predicate Closes(s: string, p: int, q: int)
  {
    0 <= p && p + 2 <= q < |s| && s[p] == '\'' && s[q] == '\''
    && forall k :: p < k < q ==> s[k] != '"'
  }

  /** No match can open at any position in `[lo, hi)`. */
  ghost predicate NoMatchIn(s: string, lo: int, hi: int)
  {
    forall p, q :: lo <= p < hi ==> !Closes(s, p, q)
  }

  /** `s[p..q]` is the match opening at `p` with the farthest closing `'`. */
  ghost predicate Greedy(s: string, p: int, q: int)
  {
    Closes(s, p, q) && forall q' :: Closes(s, p, q') ==> q' <= q
  }

  /** `s[p..q]` is the match the engine reports: leftmost, then greedy. */
  ghost predicate IsMatch(s: string, p: int, q: int)
  {
    NoMatchIn(s, 0, p) && Greedy(s, p, q)
  }

  /** Scans right from `k` for the last `'` that can close a match opened
      at `p`, stopping at the first `"`; `last` is the best closing found
      so far, or -1. */
  function LastCloser(s: string, p: nat, k: nat, last: int): (q: int)
    requires p < k <= |s| && s[p] == '\''
    requires forall j :: p < j < k ==> s[j] != '"'
    requires last == -1 || (p + 2 <= last < k && s[last] == '\'')
    requires forall j :: p + 2 <= j < k && s[j] == '\'' ==> j <= last
    ensures q == -1 ==> forall j :: !Closes(s, p, j)
    ensures q != -1 ==> Greedy(s, p, q)
    decreases |s| - k
  {
    if k == |s| || s[k] == '"' then last
    else LastCloser(s, p, k + 1, if s[k] == '\'' && p + 2 <= k then k else last)
  }

  /** The capture of the leftmost match that opens at or after `p`. */
  function MatchFrom(s: string, p: nat): (r: Option<string>)
    requires p <= |s|
    ensures r.None? <==> NoMatchIn(s, p, |s|)
    ensures r.Some? ==> exists i, j :: p <= i && NoMatchIn(s, p, i) && Greedy(s, i, j) && r.value == s[i + 1..j]
    decreases |s| - p
  {
    if p == |s| then None
    else
      var q := if s[p] == '\'' then LastCloser(s, p, p + 1, -1) else -1;
      if q != -1 then
        Some(s[p + 1..q])
      else
        var r := MatchFrom(s, p + 1);
        assert forall j :: !Closes(s, p, j);
        r
  }

  /** `onclick.match(/'([^"]+)'/)[1]`, or None where `match` gives null. */
  function QuotedId(onclick: string): (r: Option<string>)
    ensures r.None? <==> NoMatchIn(onclick, 0, |onclick|)
    ensures r.Some? ==> exists i, j :: IsMatch(onclick, i, j) && r.value == onclick[i + 1..j]
  {
    assert NoMatchIn(onclick, 0, 0);
    var r := MatchFrom(onclick, 0);
    assert r.Some? ==> exists i, j :: IsMatch(onclick, i, j) && r.value == onclick[i + 1..j] by {
      if r.Some? {
        var i, j :| 0 <= i && NoMatchIn(onclick, 0, i) && Greedy(onclick, i, j) && r.value == onclick[i + 1..j];
        assert IsMatch(onclick, i, j);
      }
    }
    r
  }

  /** The engine's match is unique. */
  lemma MatchUnique(s: string, i: int, j: int, i': int, j': int)
    requires IsMatch(s, i, j) && IsMatch(s, i', j')
    ensures i == i' && j == j'
  {
  }

  /** An anchor written `pre'id'post`, where no `'` comes before the id and
      none after it, yields the id, whatever quotes the id itself holds,
      provided it is non-empty and holds no `"`. */
  lemma FormSubmitYieldsId(pre: string, id: string, post: string)
    requires '\'' !in pre && '\'' !in post
    requires |id| > 0 && '"' !in id
    ensures QuotedId(pre + "'" + id + "'" + post) == Some(id)
  {
    var s := pre + "'" + id + "'" + post;
    var p, q := |pre|, |pre| + |id| + 1;
    assert s[p] == '\'' && s[q] == '\'';
    assert s[p + 1..q] == id;
    forall k | p < k < q ensures s[k] != '"' {
      assert s[k] == id[k - p - 1];
    }
    assert Closes(s, p, q);
    forall i, j | 0 <= i < p ensures !Closes(s, i, j) {
      assert s[i] == pre[i];
    }
    assert IsMatch(s, p, q);
    var r := QuotedId(s);
    var i, j :| IsMatch(s, i, j) && r.value == s[i + 1..j];
    MatchUnique(s, i, j, p, q);
  }

  /** The script's own anchors, `formSubmit('123')`, yield `123`. */
  lemma FormSubmitExample()
    ensures QuotedId("formSubmit('123')") == Some("123")
  {
    assert "formSubmit('123')" == "formSubmit(" + "'" + "123" + "'" + ")";
    FormSubmitYieldsId("formSubmit(", "123", ")");
  }

  /** An `onclick` with no `'` at all has no match, so `match(...)[1]` throws. */
  lemma NoQuoteNoMatch(onclick: string)
    requires '\'' !in onclick
    ensures QuotedId(onclick).None?
  {
    forall p, q | 0 <= p < |onclick| ensures !Closes(onclick, p, q) {
      assert onclick[p] in onclick;
    }
  }
}
