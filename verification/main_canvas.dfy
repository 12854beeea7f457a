/** The document canvas (frontend/components/main-canvas.tsx): the zoom
    and rotation controls, clause selection, the clause tallies and the
    confidence colour. */
module MainCanvas {
  import opened Wrappers
  import opened Ui
  import opened Seqs

  const InitialZoom := 100
  const MinZoom := 50
  const MaxZoom := 200
  const ZoomStep := 25

  /** `handleZoomIn`: one step up, capped at the maximum. */
  function ZoomIn(z: int): (r: int)
    ensures z <= MaxZoom - ZoomStep ==> r == z + ZoomStep
    ensures z > MaxZoom - ZoomStep ==> r == MaxZoom
  {
    if z + ZoomStep < MaxZoom then z + ZoomStep else MaxZoom
  }

  /** `handleZoomOut`: one step down, floored at the minimum. */
  function ZoomOut(z: int): (r: int)
    ensures z >= MinZoom + ZoomStep ==> r == z - ZoomStep
    ensures z < MinZoom + ZoomStep ==> r == MinZoom
  {
    if z - ZoomStep > MinZoom then z - ZoomStep else MinZoom
  }

  /** The zoom levels the buttons can reach. */
  predicate ValidZoom(z: int) { MinZoom <= z <= MaxZoom && z % ZoomStep == 0 }

  /** The zoom after a sequence of clicks from the initial level
      (`true` = zoom in). */
  function ZoomAfter(clicks: seq<bool>): int {
    if |clicks| == 0 then InitialZoom
    else
      var z := ZoomAfter(clicks[..|clicks| - 1]);
      if clicks[|clicks| - 1] then ZoomIn(z) else ZoomOut(z)
  }

  /** Whatever the clicks, the zoom stays a multiple of 25 in [50, 200]. */
  lemma {:induction false} ZoomAlwaysValid(clicks: seq<bool>)
    ensures ValidZoom(ZoomAfter(clicks))
  {
    if |clicks| > 0 {
      ZoomAlwaysValid(clicks[..|clicks| - 1]);
    }
  }

  /** Zooming out undoes zooming in below the cap. */
  lemma ZoomOutUndoesIn(z: int)
    requires MinZoom <= z <= MaxZoom - ZoomStep
    ensures ZoomOut(ZoomIn(z)) == z
  {
  }

  /** `handleRotate`: a quarter turn, modulo a full turn. */
  function Rotate(r: int): (s: int)
    requires 0 <= r
    ensures 0 <= s < 360
    ensures s % 90 == r % 90
    ensures r < 270 ==> s == r + 90
    ensures 270 <= r < 630 ==> s == r - 270
  {
    (r + 90) % 360
  }

  /** The angle after `n` rotations from 0. */
  function RotationAfter(n: nat): (r: int)
    ensures 0 <= r < 360
  {
    if n == 0 then 0 else Rotate(RotationAfter(n - 1))
  }

  /** From 0 the angle is a quarter turn count modulo four. */
  lemma {:induction false} RotationQuarterTurns(n: nat)
    ensures RotationAfter(n) == 90 * (n % 4)
  {
    if n > 0 {
      RotationQuarterTurns(n - 1);
    }
  }

  /** Four rotations bring any angle back. */
  lemma FourRotationsReturn(r: int)
    requires 0 <= r < 360
    ensures Rotate(Rotate(Rotate(Rotate(r)))) == r
  {
    var a := Rotate(r);
    var b := Rotate(a);
    var c := Rotate(b);
    if r < 90 {
      assert a == r + 90 && b == r + 180 && c == r + 270;
    } else if r < 180 {
      assert a == r + 90 && b == r + 180 && c == r - 90;
    } else if r < 270 {
      assert a == r + 90 && b == r - 180 && c == r - 90;
    } else {
      assert a == r - 270 && b == r - 180 && c == r - 90;
    }
  }

  /** A clause click: the selected clause is deselected, any other becomes
      the selection. */
  function ToggleClause(selected: Option<int>, id: int): (r: Option<int>)
    ensures r == Some(id) <==> selected != Some(id)
    ensures r.None? <==> selected == Some(id)
  {
    if selected == Some(id) then None else Some(id)
  }

  /** Two clicks on a clause restore the selection when nothing, or that
      clause, was selected; when another clause was selected they leave
      nothing selected. */
  lemma ToggleTwice(selected: Option<int>, id: int)
    ensures selected.None? || selected == Some(id) ==> ToggleClause(ToggleClause(selected, id), id) == selected
    ensures selected.Some? && selected != Some(id) ==> ToggleClause(ToggleClause(selected, id), id).None?
  {
  }

  datatype Status = Pass | Fail

  datatype Clause = Clause(id: int, status: Status, confidence: int, comments: int)

  function IsPass(c: Clause): bool { c.status == Pass }

  function IsFail(c: Clause): bool { c.status == Fail }

  /** The "Compliant Clauses" tally. */
  function PassCount(clauses: seq<Clause>): nat { |Filter(clauses, IsPass)| }

  /** The "Issues Found" tally. */
  function FailCount(clauses: seq<Clause>): nat { |Filter(clauses, IsFail)| }

  /** Every clause is counted exactly once by the two tallies. */
  lemma TalliesCoverClauses(clauses: seq<Clause>)
    ensures PassCount(clauses) + FailCount(clauses) == |clauses|
  {
    FilterComplement(clauses, IsPass, IsFail);
  }

  /** `clauses.reduce((sum, c) => sum + c.comments, 0)`: a left fold. */
  function CommentsFrom(clauses: seq<Clause>, acc: int): int {
    if |clauses| == 0 then acc else CommentsFrom(clauses[1..], acc + clauses[0].comments)
  }

  function CommentTotal(clauses: seq<Clause>): int { CommentsFrom(clauses, 0) }

  /** The sum of the clauses' comments, written as a right fold. */
  function SumComments(clauses: seq<Clause>): int {
    if |clauses| == 0 then 0 else clauses[0].comments + SumComments(clauses[1..])
  }

  /** The fold from any start adds the sum to it. */
  lemma {:induction false} CommentsFromIsSum(clauses: seq<Clause>, acc: int)
    ensures CommentsFrom(clauses, acc) == acc + SumComments(clauses)
  {
    if |clauses| > 0 {
      CommentsFromIsSum(clauses[1..], acc + clauses[0].comments);
    }
  }

  /** The comment total is the sum of the clauses' comments, and adding a
      clause adds its comments. */
  lemma {:induction false} CommentTotalAppend(clauses: seq<Clause>, c: Clause)
    ensures CommentTotal(clauses + [c]) == CommentTotal(clauses) + c.comments
  {
    CommentsFromIsSum(clauses, 0);
    CommentsFromIsSum(clauses + [c], 0);
    SumAppend(clauses, c);
  }

  lemma {:induction false} SumAppend(clauses: seq<Clause>, c: Clause)
    ensures SumComments(clauses + [c]) == SumComments(clauses) + c.comments
  {
    if |clauses| > 0 {
      SumAppend(clauses[1..], c);
      assert (clauses + [c])[1..] == clauses[1..] + [c];
    } else {
      assert clauses + [c] == [c];
    }
  }

  /** The colour of a clause's confidence badge. */
  function ConfidenceColor(confidence: int): (r: Color)
    ensures r == Green <==> confidence >= 90
    ensures r == Amber <==> 70 <= confidence < 90
    ensures r == Red <==> confidence < 70
  {
    Band(confidence, 90, 70)
  }
}
