/** The customer documents list (frontend/components/documents-list.tsx):
    status and score colours, the pagination footer, the violation preview
    and the delete tracker. */
module DocumentsList {
  import opened Wrappers
  import opened Text
  import opened Ui
  import Handler
  import Service

  /** `getStatusColor`: compliance wins over the review flag. */
  function StatusColor(d: Handler.DocumentDto): (r: Color)
    ensures r == Green <==> d.isCompliant
    ensures r == Amber <==> !d.isCompliant && d.isHumanReviewRequired
    ensures r == Red <==> !d.isCompliant && !d.isHumanReviewRequired
  {
    if d.isCompliant then Green else if d.isHumanReviewRequired then Amber else Red
  }

  /** The colour of the compliance score. */
  function ScoreColor(score: int): (r: Color)
    ensures r == Green <==> score >= 80
    ensures r == Amber <==> 60 <= score < 80
    ensures r == Red <==> score < 60
  {
    Band(score, 80, 60)
  }

  /** `Math.ceil(total / pageSize)` for a positive page size. */
  function CeilDiv(total: int, pageSize: int): (r: int)
    requires pageSize >= 1
    ensures (r - 1) * pageSize < total <= r * pageSize
  {
    var q := (-total) / pageSize;
    assert q * pageSize <= -total < (q + 1) * pageSize;
    -q
  }

  /** Footer shown only when there is more than one page's worth. */
  predicate ShowsPagination(total: int, pageSize: int) { total > pageSize }

  /** First record number of the "Showing a to b of n" label. */
  function RangeStart(page: int, pageSize: int): int { (page - 1) * pageSize + 1 }

  /** Last record number of the label. */
  function RangeEnd(page: int, pageSize: int, total: int): int {
    if page * pageSize < total then page * pageSize else total
  }

  predicate PrevDisabled(page: int) { page <= 1 }

  predicate NextDisabled(page: int, pageSize: int, total: int)
    requires pageSize >= 1
  {
    page >= CeilDiv(total, pageSize)
  }

  /** On any existing page the label is a well-formed range inside the
      total. */
  lemma RangeWithinTotal(page: int, pageSize: int, total: int)
    requires pageSize >= 1 && 1 <= page <= CeilDiv(total, pageSize)
    ensures 1 <= RangeStart(page, pageSize) <= RangeEnd(page, pageSize, total) <= total
  {
    var c := CeilDiv(total, pageSize);
    assert (page - 1) * pageSize <= (c - 1) * pageSize by {
      assert (c - 1) * pageSize - (page - 1) * pageSize == (c - page) * pageSize;
    }
    assert (page - 1) * pageSize >= 0;
    assert page * pageSize == (page - 1) * pageSize + pageSize;
  }

  lemma MulMono(a: int, b: int, k: int)
    requires a <= b && k >= 0
    ensures a * k <= b * k
  {
    assert b * k - a * k == (b - a) * k;
  }

  /** Next is enabled exactly when records remain beyond this page. */
  lemma NextEnabledIffMore(page: int, pageSize: int, total: int)
    requires pageSize >= 1
    ensures !NextDisabled(page, pageSize, total) <==> page * pageSize < total
  {
    var c := CeilDiv(total, pageSize);
    if page < c {
      MulMono(page, c - 1, pageSize);
    } else {
      MulMono(c, page, pageSize);
    }
  }

  /** The label counts exactly the records the server returns for the
      page. */
  lemma RangeCountsServerPage<T>(xs: seq<T>, page: int, pageSize: int)
    requires page >= 1 && pageSize >= 1 && (page - 1) * pageSize < |xs|
    ensures RangeEnd(page, pageSize, |xs|) - RangeStart(page, pageSize) + 1 == |Service.PageOf(xs, page, pageSize)|
  {
    assert page * pageSize == (page - 1) * pageSize + pageSize;
    assert (page - 1) * pageSize >= 0;
  }

  /** `violations.slice(0, 2)`. */
  function Preview(violations: seq<Str>): (r: seq<Str>)
    ensures |r| <= 2 && |r| <= |violations| && r == violations[..|r|]
    ensures |violations| <= 2 ==> r == violations
  {
    if |violations| <= 2 then violations else violations[..2]
  }

  /** The "+k more violation(s)" line under the preview, if any. */
  function MoreLabel(n: int): (r: Option<Str>)
    ensures r.Some? <==> n > 2
  {
    if n > 2 then Some("+" + IntToString(n - 2) + " more violation" + (if n - 2 != 1 then "s" else ""))
    else None
  }

  /** The "more" line names the number of hidden violations, which reads
      back from its digits, and ends in "s" unless exactly one is hidden. */
  lemma MoreLabelNamesHidden(n: int)
    requires n > 2
    ensures var l := MoreLabel(n).value;
            var d := NatToString(n - 2);
            && |l| > |d| && l[..|d| + 1] == "+" + d && ParseDigits(d) == n - 2
            && (l[|l| - 1] == 's' <==> n - 2 != 1)
  {
    ParseNatToString(n - 2);
    var l := MoreLabel(n).value;
    var d := NatToString(n - 2);
    assert l == "+" + d + (" more violation" + (if n - 2 != 1 then "s" else ""));
  }

  /** The number of hidden violations, as the "more" line reports it. */
  function Hidden(n: int): nat { if n > 2 then n - 2 else 0 }

  /** The preview and the "more" line together account for every
      violation, and the line is pluralised unless exactly one is hidden. */
  lemma PreviewAccountsForAll(violations: seq<Str>)
    ensures |Preview(violations)| + Hidden(|violations|) == |violations|
    ensures MoreLabel(|violations|).Some? ==>
              MoreLabel(|violations|).value ==
                "+" + IntToString(Hidden(|violations|)) + " more violation"
                + (if Hidden(|violations|) == 1 then "" else "s")
  {
  }
}
