/** The scan list in the left sidebar (frontend/components/left-sidebar.tsx):
    the status filter, the simulated upload progress and the tag badges. */
module LeftSidebar {
  import opened Wrappers
  import opened Text
  import opened Seqs

  datatype ScanStatus = Compliant | NonCompliant

  datatype Scan = Scan(id: int, name: Str, score: int, status: ScanStatus, tags: Option<seq<Str>>)

  /** The predicate `filteredScans` applies for a filter value. */
  function Keeps(filter: Str): Scan -> bool {
    (scan: Scan) =>
      if filter == "compliant" then scan.status == Compliant
      else if filter == "non-compliant" then scan.status == NonCompliant
      else true
  }

  function FilteredScans(scans: seq<Scan>, filter: Str): seq<Scan> {
    Filter(scans, Keeps(filter))
  }

  /** The filtered list holds exactly the scans of the chosen status, in
      their original order; any other filter value keeps every scan. */
  lemma FilteredScansMembers(scans: seq<Scan>, filter: Str)
    ensures IsSubseq(FilteredScans(scans, filter), scans)
    ensures filter == "compliant" ==>
              forall x :: x in FilteredScans(scans, filter) <==> x in scans && x.status == Compliant
    ensures filter == "non-compliant" ==>
              forall x :: x in FilteredScans(scans, filter) <==> x in scans && x.status == NonCompliant
    ensures filter != "compliant" && filter != "non-compliant" ==> FilteredScans(scans, filter) == scans
  {
    FilterMembers(scans, Keeps(filter));
    if filter != "compliant" && filter != "non-compliant" {
      FilterAll(scans, Keeps(filter));
    }
  }

  /** The two status filters split the list between them. */
  lemma StatusFiltersPartition(scans: seq<Scan>)
    ensures |FilteredScans(scans, "compliant")| + |FilteredScans(scans, "non-compliant")| == |scans|
  {
    assert "compliant" != "non-compliant";
    FilterComplement(scans, Keeps("compliant"), Keeps("non-compliant"));
  }

  /** One tick of the simulated upload progress. */
  function ProgressStep(prev: int): (r: int)
    ensures prev >= 100 ==> r == 100
    ensures prev < 100 ==> r == prev + 10
  {
    if prev >= 100 then 100 else prev + 10
  }

  /** The progress after `n` ticks from 0. */
  function ProgressAfter(n: nat): int {
    if n == 0 then 0 else ProgressStep(ProgressAfter(n - 1))
  }

  /** From 0 the progress climbs by tens to 100 and stays there. */
  lemma {:induction false} ProgressClimbs(n: nat)
    ensures ProgressAfter(n) == (if n <= 10 then 10 * n else 100)
    ensures 0 <= ProgressAfter(n) <= 100
  {
    if n > 0 {
      ProgressClimbs(n - 1);
    }
  }

  /** The progress bar is shown strictly between 0 and 100. */
  predicate ShowsProgress(progress: int) { 0 < progress < 100 }

  /** The bar is visible from the first to the ninth tick only. */
  lemma ProgressVisibleWhileRunning(n: nat)
    ensures ShowsProgress(ProgressAfter(n)) <==> 1 <= n <= 9
  {
    ProgressClimbs(n);
  }

  /** `scan.tags.slice(0, 2)`; no badges when the scan has no tags. */
  function ShownTags(tags: Option<seq<Str>>): (r: seq<Str>)
    ensures |r| <= 2
    ensures tags.Some? ==> |r| == (if |tags.value| <= 2 then |tags.value| else 2)
    ensures tags.Some? ==> r == tags.value[..|r|]
    ensures tags.Some? && |tags.value| <= 2 ==> r == tags.value
    ensures tags.None? ==> r == []
  {
    match tags
    case None => []
    case Some(ts) => if |ts| <= 2 then ts else ts[..2]
  }

  /** Only the first two tags matter: what follows them is never shown,
      and the shown tags show themselves again. */
  lemma ShownTagsIgnoreRest(ts: seq<Str>, more: seq<Str>)
    requires |ts| >= 2
    ensures ShownTags(Some(ts + more)) == ShownTags(Some(ts)) == ts[..2]
    ensures ShownTags(Some(ShownTags(Some(ts)))) == ShownTags(Some(ts))
  {
    assert (ts + more)[..2] == ts[..2];
  }
}
