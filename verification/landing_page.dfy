/** The two timer-driven animations of the landing page
    (frontend/app/page.tsx): the demo scan progress and the highlighted
    feature card. Each timer tick is one application of a step function. */
module LandingPage {

  /** One tick of the scan progress: wraps to 0 after 100. */
  function ScanStep(prev: int): (r: int)
    ensures prev >= 100 ==> r == 0
    ensures prev < 100 ==> r == prev + 1
  {
    if prev >= 100 then 0 else prev + 1
  }

  /** The progress after `n` ticks from 0. */
  function ScanAfter(n: nat): int {
    if n == 0 then 0 else ScanStep(ScanAfter(n - 1))
  }

  /** From 0 the progress counts ticks modulo 101, so it stays within
      [0, 100]. */
  lemma ModStep(m: nat)
    ensures (m + 1) % 101 == if m % 101 == 100 then 0 else m % 101 + 1
  {
    var q, r := m / 101, m % 101;
    assert m + 1 == 101 * q + (r + 1);
    if r == 100 {
      assert m + 1 == 101 * (q + 1) + 0;
    }
  }

  lemma {:induction false} ScanCounts(n: nat)
    ensures ScanAfter(n) == n % 101
    ensures 0 <= ScanAfter(n) <= 100
  {
    if n > 0 {
      ScanCounts(n - 1);
      ModStep(n - 1);
      assert ScanAfter(n) == ScanStep((n - 1) % 101);
    }
  }

  /** The progress comes back to 0 after 100 and repeats every 101 ticks. */
  lemma {:induction false} ScanPeriodic(n: nat)
    ensures ScanAfter(n + 101) == ScanAfter(n)
  {
    if n == 0 {
      ScanCounts(101);
    } else {
      ScanPeriodic(n - 1);
      assert ScanAfter(n + 101) == ScanStep(ScanAfter(n - 1 + 101));
    }
  }

  const FeatureCount := 3

  /** One tick of the feature carousel. */
  function FeatureStep(prev: int): (r: int)
    requires prev >= 0
    ensures 0 <= r < FeatureCount
    ensures prev < FeatureCount - 1 ==> r == prev + 1
    ensures prev == FeatureCount - 1 ==> r == 0
  {
    (prev + 1) % FeatureCount
  }

  /** The highlighted card after hovering card `start` (or mounting, with
      `start` 0) and `n` ticks. */
  function FeatureAfter(start: int, n: nat): int
    requires 0 <= start < FeatureCount
    ensures 0 <= FeatureAfter(start, n) < FeatureCount
  {
    if n == 0 then start else FeatureStep(FeatureAfter(start, n - 1))
  }

  /** The carousel advances one card per tick, cyclically, from wherever
      the pointer left it (hovering a card sets `start`). */
  lemma {:induction false} FeatureCycles(start: int, n: nat)
    requires 0 <= start < FeatureCount
    ensures FeatureAfter(start, n) == (start + n) % FeatureCount
  {
    if n > 0 {
      FeatureCycles(start, n - 1);
    }
  }

  /** The carousel repeats every three ticks. */
  lemma {:induction false} FeaturePeriodic(start: int, n: nat)
    requires 0 <= start < FeatureCount
    ensures FeatureAfter(start, n + 3) == FeatureAfter(start, n)
  {
    if n == 0 {
      FeatureCycles(start, 3);
    } else {
      FeaturePeriodic(start, n - 1);
      assert FeatureAfter(start, n + 3) == FeatureStep(FeatureAfter(start, n - 1 + 3));
    }
  }
}
