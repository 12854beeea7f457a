/** The scanner page (frontend/app/scanner/page.tsx): the active tab, the
    key that remounts the documents list, the rate-limit dialog and the
    selected document. */
module ScannerPage {
  import opened Wrappers
  import opened Text
  import Handler

  datatype RateLimitState = RateLimitState(isOpen: bool, message: Str)

  datatype Page = Page(activeTab: Str, refreshKey: int, rateLimit: RateLimitState,
                       selected: Option<Handler.DocumentDto>)

  /** The page as first rendered. */
  const Initial := Page("upload", 0, RateLimitState(false, ""), None)

  /** `handleUploadSuccess`: show the library and remount its list. */
  function UploadSucceeded(p: Page): (r: Page)
    ensures r.activeTab == "documents" && r.refreshKey == p.refreshKey + 1
    ensures r.rateLimit == p.rateLimit && r.selected == p.selected
  {
    p.(activeTab := "documents", refreshKey := p.refreshKey + 1)
  }

  /** The list's key after `n` successful uploads. */
  function KeyAfter(p: Page, n: nat): Page {
    if n == 0 then p else UploadSucceeded(KeyAfter(p, n - 1))
  }

  /** Every upload yields a key not used before, so each one remounts the
      documents list and it fetches afresh. */
  lemma {:induction false} KeysNeverRepeat(p: Page, m: nat, n: nat)
    requires m < n
    ensures KeyAfter(p, m).refreshKey < KeyAfter(p, n).refreshKey
    ensures KeyAfter(p, n).refreshKey == p.refreshKey + n
  {
    KeyCount(p, n);
    KeyCount(p, m);
  }

  lemma {:induction false} KeyCount(p: Page, n: nat)
    ensures KeyAfter(p, n).refreshKey == p.refreshKey + n
  {
    if n > 0 {
      KeyCount(p, n - 1);
    }
  }

  /** `handleRateLimitError`: open the dialog with the message. */
  function RateLimited(p: Page, message: Str): (r: Page)
    ensures r.rateLimit == RateLimitState(true, message)
    ensures r.activeTab == p.activeTab && r.refreshKey == p.refreshKey && r.selected == p.selected
  {
    p.(rateLimit := RateLimitState(true, message))
  }

  /** The dialog's `onOpenChange`. */
  function DialogOpenChange(p: Page, open: bool): (r: Page)
    ensures r.rateLimit.isOpen == open && r.rateLimit.message == p.rateLimit.message
    ensures r.activeTab == p.activeTab && r.refreshKey == p.refreshKey && r.selected == p.selected
  {
    p.(rateLimit := p.rateLimit.(isOpen := open))
  }

  /** Closing and reopening the dialog shows the same message again. */
  lemma DialogKeepsMessage(p: Page, message: Str)
    ensures DialogOpenChange(DialogOpenChange(RateLimited(p, message), false), true).rateLimit
            == RateLimitState(true, message)
  {
  }

  /** A document picked in the list. */
  function SelectDocument(p: Page, d: Handler.DocumentDto): (r: Page)
    ensures r.selected == Some(d) && r.activeTab == p.activeTab
  {
    p.(selected := Some(d))
  }

  /** The details panel, rendered under the list inside the "documents"
      tab only. */
  predicate ShowsDetails(p: Page) { p.activeTab == "documents" && p.selected.Some? }

  /** Nothing is detailed at first; a picked document is detailed while the
      documents tab is active, and a later upload, which switches to that
      tab, keeps it selected and detailed. */
  lemma DetailsFollowSelection(p: Page, d: Handler.DocumentDto)
    ensures !ShowsDetails(Initial)
    ensures ShowsDetails(SelectDocument(p, d)) <==> p.activeTab == "documents"
    ensures UploadSucceeded(SelectDocument(p, d)).selected == Some(d)
    ensures ShowsDetails(UploadSucceeded(SelectDocument(p, d)))
  {
  }
}
