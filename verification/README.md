# PolicyMatch in Dafny

PolicyMatch checks customer documents against compliance policies. A Go
backend accepts a policy file. It has Apache Tika extract the text, cleans
the text, asks a Groq-hosted language model to split it into numbered
rules, and stores the policy and its rules in PostgreSQL. A customer
document is checked the same way: its text and the stored rules of the
chosen policy go to the model, and the model's verdict is stored and
returned. The verdict holds compliance, a percentage, the violated rules and
a review flag. A Next.js frontend lists, creates, edits and deletes
policies. It uploads documents and pages through the stored results. It also
keeps an optional Groq API key in browser storage.

This project models that core as pure functions over immutable data.

- **Backend.** Configuration loading (`Config`), filename sanitising
  (`Filename`) and text cleaning (`CleanText`). The Groq client's prompts,
  request shapes and error handling (`Llm`). The repository as an in-memory
  store of policies, rules and documents (`Repository`). The services
  (`Service`), the HTTP handlers with their request binding (`Handler`) and
  the route table (`Routes`).
- **Frontend.** The HTTP client and its URLs (`ApiClient`) and the
  data-fetching hooks (`UseApi`). Each component is a state machine whose
  transitions are the component's handlers: `DocumentsList`, `MainCanvas`,
  `LeftSidebar`, `PolicyForms` (shared by the policy selector and the policy
  management page), `PolicySelector`, `DocumentUpload`, `ApiKeys`,
  `ApiSettings`, `ApiKeyManager`, `RateLimitDialog`, `ScannerPage` and
  `LandingPage`.
- **Shared.** Go's and JavaScript's string primitives are in `Text`,
  sequence filtering and windows are in `Seqs`, and the three-colour
  thresholds and delete trackers are in `Ui`.

Whatever the system reaches outside itself is a parameter:

- the `.env` file and the environment;
- Tika's extracted text, or its error;
- the language model's answers;
- the database's failures;
- fresh UUIDs and the clock;
- the result of every `fetch`;
- `localStorage`.

Strings are sequences of Unicode code points. Go's 64-bit `int` is written
out where it wraps.

Where the code and its own description disagree, the model follows the
code:

- The frontend's `useUpload` catches an `ApiError` with an `isRateLimit`
  flag. Rate-limit handling is described as reaching the backend through an
  API-key header. `frontend/lib/api.ts` defines neither the class nor the
  header, and never inspects a 429. `ApiClient.Settle` therefore only ever
  produces plain errors. Because the imported `ApiError` is `undefined`, the
  `instanceof` test in `useUpload`'s catch block itself throws a TypeError,
  so no upload error is ever shown (`UseApi.UploadAsWritten`). The hook
  with the class in place is `UseApi.Upload`, whose rate-limit branch is
  modelled for a thrown value that carries the flag.
- `ScannerPage` passes `onRateLimitError` to `PolicyManagement` and
  `DocumentUpload`, whose props do not declare it, so that path never fires
  from those components.

## Model

Each row names the member whose contract states the property. A handler
that only computes its next state is covered by the lemma that relates it
to the others: for example `MainCanvas.ZoomIn` and `ZoomOut` by
`MainCanvas.ZoomAlwaysValid`, and the `ApiSettings` handlers by
`ApiSettings.StorageInSync` and `ApiSettings.ReloadShowsSavedKey`.

| member | source | states |
|---|---|---|
| Config.SslMode | backend/internal/config/config.go:29-32 | the SSL mode is "require" exactly when IS_PROD is "true", and "disable" otherwise |
| Config.DbUrlRoundTrip | backend/internal/config/config.go:34-42 | when no value holds a space, splitting the connection string at spaces gives back the six key=value fields in format order |
| Config.MissingServiceVars | backend/internal/config/config.go:58-66 | exactly the empty variables among GROQ_API_KEY, LLM_MODEL and TIKA_URL are listed, at most three, in the order they are checked |
| Config.AllSetService | backend/internal/config/config.go:67-69 | the service check passes exactly when the missing list is empty |
| Config.Load | backend/internal/config/config.go:19-73 | a .env failure and any empty database variable are reported first, with their own messages; loading succeeds exactly when every required variable is set; the result carries the environment's values, the default origin http://localhost when ORIGIN is empty, and the connection string built from the database variables |
| Config.LoadReportsMissing | backend/internal/config/config.go:58-70 | with the database variables set, the error names exactly the missing service variables in Go's `%v` list format |
| Filename.Ext | backend/internal/service/service.go:141 | `filepath.Ext`: a suffix of the name that is empty exactly when the last path element has no '.', and otherwise starts at the last '.' and holds no further '.' or '/' |
| Filename.ExtOfSuffix | backend/internal/service/service.go:141-142 | the extension of a base followed by an extension-shaped suffix is that suffix, so `TrimSuffix` removes exactly it |
| Filename.CleanBase | backend/internal/service/service.go:144-146 | the cleaned base has no space, no ASCII upper-case letter and no surrounding whitespace, and is never longer than its input |
| Filename.CleanBaseOfClean | backend/internal/service/service.go:144-146 | a base that is already clean passes through trimming, lower-casing and the space replacement unchanged |
| Filename.SanitizeFilename | backend/internal/service/service.go:140-148 | the extension is a verbatim, well-shaped suffix of the name, empty exactly when the name has none; the base is clean; base and extension together are never longer than the name |
| Filename.SanitizeOfSanitized | backend/internal/service/service.go:140-148 | a clean base followed by a well-shaped extension is its own sanitised form, provided the base has no extension of its own when the suffix is empty |
| Filename.SanitizedBaseNoExtension | backend/internal/service/service.go:140-148 | a name without an extension yields a base without one |
| Filename.SanitizeFilenameIdempotent | backend/internal/service/service.go:140-148 | sanitising the stored base and extension again gives them back |
| CleanText.ReplaceCrlfIdentity | backend/internal/service/service.go:166 | a text without a CR LF pair is left alone by the replacement |
| CleanText.RegexCollapseIsCapRuns | backend/internal/service/service.go:174-178 | the leftmost-longest replacement of runs of two or more `c` by one or two `c` is the same as capping every run of `c` at that length |
| CleanText.CapNewlinesNoTriple | backend/internal/service/service.go:174-175 | after the blank-line collapse no three line breaks are adjacent |
| CleanText.CapSpacesNoDouble | backend/internal/service/service.go:177-178 | after the space collapse no two spaces are adjacent |
| CleanText.CapSpacesKeepsNoTriple | backend/internal/service/service.go:174-178 | the space collapse, which runs second, never brings three line breaks together |
| CleanText.LinesTrimmedJoin | backend/internal/service/service.go:168-172 | a text joined with line breaks has trimmed lines exactly when every joined piece does |
| CleanText.TrimLinesTrimmed | backend/internal/service/service.go:166-172 | after trimming every line, no line starts or ends with whitespace |
| CleanText.CleanText | backend/internal/service/service.go:165-181 | the cleaned text is never longer than the raw text |
| CleanText.CleanTextIsClean | backend/internal/service/service.go:165-181 | the output's lines are trimmed, it has no run of three line breaks and no two adjacent spaces |
| CleanText.CleanTextFixesClean | backend/internal/service/service.go:165-181 | a text of that shape is a fixed point of the cleaning |
| CleanText.CleanTextIdempotent | backend/internal/service/service.go:165-181 | cleaning an already cleaned text changes nothing |
| CleanText.CleanTextLines | backend/internal/service/service.go:165-181 | every line of the output is its own `TrimSpace`, and no CR LF pair survives |
| Repository.GetPolicyById | backend/internal/repository/repository.go:103-115 | found exactly when some stored policy has the id; the result has that id and exactly the stored rules owned by it; otherwise the error is "record not found" |
| Repository.ListingAgreesWithLookup | backend/internal/repository/repository.go:54-115 | with unique policy ids, every policy a listing window returns is exactly what a lookup by its id returns, rules included |
| Repository.PolicyOf | backend/internal/repository/model.go:45-47 | the policy a document's foreign key names, or Go's zero policy when none is stored |
| Repository.DeleteDocumentExact | backend/internal/repository/repository.go:117-122 | exactly the documents with the id are removed, the rest keep their order, and policies and rules are untouched |
| Repository.DeletePolicyExact | backend/internal/repository/repository.go:124-129 | exactly the policies with the id are removed, in order, and rules and documents are untouched |
| Repository.DeleteRuleExact | backend/internal/repository/repository.go:131-136 | exactly the rules whose primary key is the id are removed, in order, and policies and documents are untouched |
| Repository.UpdateRule | backend/internal/repository/repository.go:138-146 | a map key that names no column of the rules table fails the whole statement with Postgres's undefined-column error; otherwise only the rules selected by policy id and rule id change, only in the rule text the map names, and nothing else in the store changes |
| Repository.DeleteRuleWhereExact | backend/internal/repository/repository.go:138-146 | a delete keyed like the update removes exactly the selected rules and keeps the rest in order |
| Repository.InsertThenGet | backend/internal/repository/repository.go:33-45 | a policy inserted under a fresh id and then its rules is read back with exactly those rules |
| Service.WrapInt64 | backend/internal/service/service.go:151 | two's-complement wrap-around of Go's 64-bit int: a value in range congruent to the input, and the input itself when it fits |
| Service.OffsetAsWritten | backend/internal/service/service.go:151 | the 64-bit offset equals the true record offset whenever that offset fits |
| Service.OffsetWraps | backend/internal/service/service.go:184 | page 184467440737095518 with page size 50 passes the handler's binding, and its offset wraps to a negative number |
| Service.WrappedPageIsFirstPage | backend/internal/service/service.go:150-163 | with the wrapped offset the query returns the first page, where the true page is empty |
| Service.GetPoliciesAsWritten | backend/internal/service/service.go:183-196 | a query error is wrapped with "getPolicies :: getAllPolicies: "; the total counts every policy; the page is the true page whenever the 64-bit offset does not wrap, and the first page when it wraps negative |
| Service.GetDocumentsAsWritten | backend/internal/service/service.go:150-163 | a query error is wrapped with "getDocuments :: getAllDocuments: "; the total counts every document; the page is the true page when the offset fits and the first page when it wraps negative; preloading the policy changes each listed document in its policy alone |
| Service.PageContains | backend/internal/service/service.go:183-196 | every record appears on page `i / pageSize + 1` at position `i % pageSize` |
| Service.PageAt | backend/internal/service/service.go:183-196 | a page position exists exactly when the record it stands for does, and holds that record |
| Service.UploadPolicy | backend/internal/service/service.go:39-92 | open, extraction, rule-extraction, policy-insert ("uploadPolicy :: createDocument: ") and rule-insert failures are reported with their own prefixes; a failure before the policy insert leaves the store unchanged; an empty rule list fails like GORM's insert of an empty slice, and a failing rule insert keeps the policy row; success needs at least one rule and adds the policy and then its rules, extracted from the cleaned text |
| Service.UploadThenGet | backend/internal/service/service.go:39-92 | after a successful upload under fresh ids the policy is found with exactly the rules built from the extraction |
| Service.CheckDocumentCompliance | backend/internal/service/service.go:94-138 | open, extraction, policy lookup and model failures are reported with their own prefixes and store nothing; the lookup fails on a database error, or with "record not found" when no stored policy has the id; a success returns the verdict for the policy's stored rules and stores the document unless the insert fails |
| Service.CheckIgnoresStoreFailure | backend/internal/service/service.go:122-137 | the answer is the same whether or not the document could be stored |
| Service.CheckThenList | backend/internal/service/service.go:94-138 | after a stored check, the listing at the next offset holds the new document with its id, policy id and verdict; as written its policy is the zero policy, and with the preload it is the checked policy with its title |
| Service.DeleteDocument | backend/internal/service/service.go:198-200 | a database error is passed through with the store unchanged; otherwise the document is deleted by its id |
| Service.DeletePolicy | backend/internal/service/service.go:202-204 | a database error is passed through with the store unchanged; otherwise the policy is deleted by its id |
| Service.DeleteRule | backend/internal/service/service.go:206-208 | a database error is passed through with the store unchanged; otherwise the rule is deleted by primary key |
| Service.UpdateRule | backend/internal/service/service.go:210-218 | fails exactly on a database error or on a map key that is not a rules column, with the store unchanged; otherwise the repository update on (policy id, rule id) |
| Llm.WriteCompliancePrompt | backend/internal/client/llm/llm.go:62-68 | the buffer written line by line is the compliance prompt for the rules' texts and the document |
| Llm.CompliancePromptIsLines | backend/internal/client/llm/llm.go:62-68 | the compliance prompt is "Policy:", one "- " line per rule, "Document:" and one "- " line for the document, each ended by a line break |
| Llm.PromptRuleTextsRoundTrip | backend/internal/client/llm/llm.go:62-68 | when no rule text and not the document holds a line break, the prompt splits back into its lines and the rule texts are read back exactly |
| Llm.ExtractRulesPromptRoundTrip | backend/internal/client/llm/llm.go:137-139 | the extraction prompt is "Policy:" followed by one bullet, and the policy text is read back from between the bullet marker and the final line break |
| Llm.ComplianceRequestRoundTrip | backend/internal/client/llm/llm.go:62-114 | the user message of the compliance request reads back exactly the rules' texts, in order, when no text holds a line break |
| Llm.ExtractRulesRequestRoundTrip | backend/internal/client/llm/llm.go:137-178 | the user message of the extraction request holds the policy text verbatim between a 10-character prefix and the final line break |
| Llm.CallGroqApi | backend/internal/client/llm/llm.go:206-233 | succeeds exactly when the exchange succeeds with status 200, the body decodes and there is a choice, and then returns the first choice's content; every failure is tagged "callGroqAPI :: " |
| Llm.CallGroqApiNamesStatus | backend/internal/client/llm/llm.go:220-223 | a reply other than 200 is always an error, and two such replies give the same error only when their status and body agree |
| Llm.RepairJson | backend/internal/client/llm/llm.go:190-194 | the repaired answer ends with '}' and holds ']'; an answer already of that shape is kept, any other gets "]}" appended |
| Llm.RepairJsonIdempotent | backend/internal/client/llm/llm.go:190-194 | repairing twice is repairing once |
| Llm.CheckCompliance | backend/internal/client/llm/llm.go:61-134 | a call failure is wrapped with "checkCompliance :: error calling groq API: "; after a successful call a decode failure is reported with "checkCompliance :: error unmarshalling check compliance response: ", the result succeeds exactly when the answer decodes, and is then the decoded verdict |
| Llm.ExtractRules | backend/internal/client/llm/llm.go:136-204 | a call failure is wrapped with "extractRules :: error calling groq API: " and a failure to decode the repaired answer with "extractRules :: error unmarshalling extract rules response: "; the result succeeds exactly when the call and the decoding do, and is then the decoded rules |
| Llm.ExtractRulesErrorSource | backend/internal/client/llm/llm.go:185-199 | a failed extraction names its cause: the call-error prefix exactly when the call failed, the decode-error prefix exactly when the call succeeded |
| Handler.ExtensionsWellFormed | backend/internal/handler/handler_dto.go:29-44 | twelve distinct lower-case extensions, each a '.' followed by at least one character |
| Handler.BindPagination | backend/internal/handler/handler_dto.go:46-49 | binding succeeds exactly when both values are well formed and in range; page defaults to 1 and must be at least 1, page size defaults to 10 and lies in 1..50 |
| Handler.BindUploadPolicy | backend/internal/handler/handler_dto.go:23-27 | binding succeeds exactly when a file is present and title and category are non-empty, and carries them to the service unchanged |
| Handler.HandleUploadPolicy | backend/internal/handler/handler.go:25-40 | an unbound form gets 400 "request_is_invalid" with the store unchanged; a service error gets 500 with the error's own text; a success gets 200 "file_uploaded_successfully" |
| Handler.HandleCheckDocumentCompliance | backend/internal/handler/handler.go:42-57 | a missing file or policy id gets 400; a service error gets 500 with its text; a success returns the verdict as data |
| Handler.HandleGetPoliciesAsWritten | backend/internal/handler/handler.go:59-97 | 400 when binding fails, 500 with the generic message on a query error, and otherwise 200 with the policies and the total of all policies; the same reply as the corrected handler whenever the offset does not wrap |
| Handler.ListedPolicyShowsItsRules | backend/internal/handler/handler.go:72-89 | every listed policy shows the id, title and category of the stored policy at its place in the window, with exactly that policy's stored rules, in order |
| Handler.HugePageListsFirstPolicy | backend/internal/service/service.go:184 | as written, page 184467440737095518 of size 50 lists the first stored policy; the corrected handler lists nothing |
| Handler.HandleGetDocumentsAsWritten | backend/internal/handler/handler.go:99-135 | 400 when binding fails, 500 with the generic message on a query error, and otherwise 200 with the window's documents and the total; each policy title is that of the document's unloaded policy; without a wrap the corrected reply differs only in the policy titles |
| Handler.ListedAsWrittenWithoutTitle | backend/internal/handler/handler.go:125 | when no stored document has its policy loaded, which is always the case as written, every listed document has an empty policy title |
| Handler.ListedDocumentPolicyTitle | backend/internal/handler/handler.go:125 | with the policy preloaded, every listed document names the title of the policy it was checked against |
| Handler.DocumentListedWithoutPolicyTitle | backend/internal/handler/handler.go:125 | as written, a document checked against a stored policy is listed on the default page with an empty policy title; with the preload it is listed with that policy's title |
| Handler.HandleDeleteDocument | backend/internal/handler/handler.go:137-147 | 200 exactly when the database succeeds, after which the document is gone; otherwise 500 and the store is unchanged |
| Handler.HandleDeletePolicy | backend/internal/handler/handler.go:149-159 | 200 exactly when the database succeeds, after which the policy is gone; otherwise 500 and the store is unchanged |
| Handler.HandleDeleteRuleAsWritten | backend/internal/handler/handler.go:161-171 | the rule route's `:id`, which is the policy id, is used as a rule primary key |
| Handler.DeleteRuleAsWrittenKeepsRule | backend/internal/handler/handler.go:161-171 | deleting a policy's only rule through its route answers 200 and leaves the rule stored |
| Handler.HandleDeleteRule | backend/internal/handler/routes.go:21 | the corrected delete removes the rules of the route's policy with the route's rule id; 500 leaves the store unchanged |
| Handler.DeleteRuleRemovesRule | backend/internal/handler/routes.go:21 | after a successful delete no rule of the policy has that rule id, and every other rule is kept |
| Handler.UpdateMap | backend/internal/handler/handler.go:192-201 | the update map holds a key for exactly the fields present in the body, with their values, and no other key |
| Handler.UpdateMapEmpty | backend/internal/handler/handler.go:192-206 | the map is empty exactly when the body has no field |
| Handler.UpdateMapColumns | backend/internal/handler/handler.go:192-201 | the update map holds a key that is not a rules column exactly when the body has a title or a category |
| Handler.HandleUpdateRule | backend/internal/handler/handler.go:173-216 | a malformed body, a malformed policy id, an empty rule id and an empty update each get their own 400, in that order; a database error, or a title or category field, which names no rules column, gets 500 with the store unchanged; 200 exactly when a valid body carries the rule text alone and the database succeeds, and then the selected rules are updated |
| Handler.EmptyUpdateNotCalled | backend/internal/handler/handler.go:203-206 | an empty body is rejected with "no_fields_to_update" before the service runs, whatever the database would have done |
| Handler.UpdateRewritesSelected | backend/internal/handler/handler.go:192-208 | an update carrying only a rule text answers 200 and rewrites the text of exactly the selected rules; one that also carries a title or category answers 500 and changes nothing |
| Routes.Match | backend/internal/handler/routes.go:7-24 | a match has as many segments as the pattern and agrees with it on every literal segment |
| Routes.RuleRouteParams | backend/internal/handler/routes.go:21-22 | a rule path binds `id` to the policy id and `rule_id` to the rule id, for DELETE and PATCH alike |
| Ui.BandMonotone | frontend/components/documents-list.tsx:238-242 | a higher score never gets a worse colour |
| Ui.OnlyDeletingDisabled | frontend/components/documents-list.tsx:210 | while a delete runs exactly the item being deleted is disabled; afterwards none is |
| ApiClient.UrlUsesConfiguredBase | frontend/lib/api.ts:1-16 | every URL starts with NEXT_PUBLIC_API_BASE_URL when it is set and non-empty, and with http://localhost:3000 otherwise, and continues with the endpoint's path |
| ApiClient.RuleUrlsCoincide | frontend/lib/api.ts:12-15 | the delete-rule and update-rule endpoints build the same URL |
| ApiClient.UrlSegments | frontend/lib/api.ts:4-16 | every URL is the base followed by "/api/v1" and the endpoint's path segments |
| ApiClient.RuleUrlSplits | frontend/lib/api.ts:12-13 | when the ids hold no '/', the rule URL's path splits back into api, v1, policy, the policy id, rule and the rule id |
| ApiClient.DeleteRuleRoutes | backend/internal/handler/routes.go:21 | the client's rule-delete URL reaches the server's rule-delete handler with `id` bound to the policy id and `rule_id` to the rule id |
| ApiClient.CallerHeadersReplaceDefault | frontend/lib/api.ts:88-93 | because `...options` comes after `headers`, caller headers replace the JSON content type instead of extending it |
| ApiClient.UploadPolicyBinds | backend/internal/handler/handler_dto.go:23-27 | the client's policy form binds on the server exactly when title and category are non-empty, with the values the user typed |
| ApiClient.UploadDocumentFields | frontend/lib/api.ts:129-135 | the server reads back the file and the policy id from the document form |
| ApiClient.ListQueryRoundTrip | frontend/lib/api.ts:146-152 | the query splits at '&' into its two parameters, whose decimal values read back as the page and the page size |
| ApiClient.DefaultListingBinds | frontend/lib/api.ts:146-148 | the default listing request binds on the server to page 1 of 10 |
| ApiClient.DeleteDocument | frontend/lib/api.ts:154-158 | a DELETE of the document's URL with the default JSON headers |
| ApiClient.DeletePolicy | frontend/lib/api.ts:160-164 | a DELETE of the policy's URL with the default JSON headers |
| ApiClient.DeleteRule | frontend/lib/api.ts:166-170 | a DELETE of the rule's URL with the default JSON headers |
| ApiClient.UpdateRule | frontend/lib/api.ts:172-177 | a PATCH of the rule's URL carrying the partial rule as JSON |
| ApiClient.HttpErrorNamesStatus | frontend/lib/api.ts:97 | distinct failing statuses give distinct error messages |
| ApiClient.SettleReportsStatus | frontend/lib/api.ts:96-98 | two failing statuses that settle alike are the same status, and settle to an error |
| UseApi.HealthReflectsLatest | frontend/hooks/use-api.ts:7-30 | before any check the state is unknown and loading; afterwards the flag reflects the latest check and loading is over for good |
| UseApi.FirstFetch | frontend/hooks/use-api.ts:36-61 | the first fetch of a list shows the response's items and total with no error, or, on a failure, nothing listed, page 1 of 10 and the error's message or the fallback; loading is over either way |
| UseApi.FetchList | frontend/hooks/use-api.ts:45-61 | loading is over; a response replaces the list and its pagination and clears the error; a failure keeps the list and sets the error text |
| UseApi.RefetchIdempotent | frontend/hooks/use-api.ts:45-61 | refetching with the same outcome changes nothing further |
| UseApi.FetchDocuments | frontend/hooks/use-api.ts:86-122 | an unmounted hook does nothing; an aborted fetch leaves the state loading with no error |
| UseApi.DocumentsLikePolicies | frontend/hooks/use-api.ts:86-122 | a fetch that runs to completion behaves as the policies hook does, with its own fallback text |
| UseApi.UploadAsWritten | frontend/hooks/use-api.ts:148-168 | as written, uploading is over and nothing is notified; a success is the corrected hook's result, and every failure leaves no error on screen and throws the TypeError of `instanceof` on `undefined` |
| UseApi.UploadFailureHidden | frontend/hooks/use-api.ts:154-164 | as written, any two failures settle identically with no error shown; the corrected hook shows an error and rethrows a rate limit as is |
| DocumentsList.StatusColor | frontend/components/documents-list.tsx:54-58 | green exactly when compliant, amber exactly when not compliant but flagged for review, red otherwise |
| DocumentsList.ScoreColor | frontend/components/documents-list.tsx:238-242 | green from 80, amber from 60 to 79, red below 60 |
| DocumentsList.CeilDiv | frontend/components/documents-list.tsx:303 | the page count is the least number of pages that holds every record |
| DocumentsList.RangeWithinTotal | frontend/components/documents-list.tsx:283-287 | on any existing page "Showing a to b of n" has 1 <= a <= b <= n |
| DocumentsList.NextEnabledIffMore | frontend/components/documents-list.tsx:299-304 | Next is enabled exactly when records remain beyond this page |
| DocumentsList.RangeCountsServerPage | frontend/components/documents-list.tsx:286-287 | the label counts exactly the records the server returns for that page |
| DocumentsList.Preview | frontend/components/documents-list.tsx:257 | at most the first two violations, in order, and all of them when there are at most two |
| DocumentsList.MoreLabel | frontend/components/documents-list.tsx:262-266 | the "more" line is shown exactly when there are more than two violations |
| DocumentsList.MoreLabelNamesHidden | frontend/components/documents-list.tsx:262-266 | the "more" line starts with "+" and the decimal count of hidden violations, which reads back as that count, and ends in 's' exactly when the count is not one |
| DocumentsList.PreviewAccountsForAll | frontend/components/documents-list.tsx:251-267 | the preview and the hidden count add up to all violations, and the "more" line names the hidden count, in the plural unless it is one |
| MainCanvas.ZoomAlwaysValid | frontend/components/main-canvas.tsx:46-52 | whatever the clicks, the zoom stays a multiple of 25 between 50 and 200 |
| MainCanvas.ZoomOutUndoesIn | frontend/components/main-canvas.tsx:51-52 | below the cap, zooming out undoes zooming in |
| MainCanvas.Rotate | frontend/components/main-canvas.tsx:53 | a quarter turn modulo a full turn: the angle stays in [0, 360) and keeps its offset from a multiple of 90 |
| MainCanvas.RotationQuarterTurns | frontend/components/main-canvas.tsx:47-53 | after n rotations from 0 the angle is 90 times n modulo 4 |
| MainCanvas.FourRotationsReturn | frontend/components/main-canvas.tsx:53 | four rotations bring any reachable angle back |
| MainCanvas.ToggleClause | frontend/components/main-canvas.tsx:225 | clicking the selected clause deselects it, and clicking any other selects that one |
| MainCanvas.ToggleTwice | frontend/components/main-canvas.tsx:225 | two clicks restore no selection or the clicked clause's selection, and clear a selection of another clause |
| MainCanvas.TalliesCoverClauses | frontend/components/main-canvas.tsx:168-175 | every clause is counted exactly once by the pass and fail tallies |
| MainCanvas.CommentsFromIsSum | frontend/components/main-canvas.tsx:180-181 | the `reduce` from any start adds the sum of the clauses' comments to it |
| MainCanvas.CommentTotalAppend | frontend/components/main-canvas.tsx:180-181 | adding a clause adds its comments to the total |
| MainCanvas.ConfidenceColor | frontend/components/main-canvas.tsx:379-383 | green from 90, amber from 70 to 89, red below 70 |
| LeftSidebar.FilteredScansMembers | frontend/components/left-sidebar.tsx:56-60 | the filtered list keeps its order and holds exactly the scans of the chosen status, or all scans for any other filter value |
| LeftSidebar.StatusFiltersPartition | frontend/components/left-sidebar.tsx:56-60 | the compliant and non-compliant lists together hold every scan once |
| LeftSidebar.ProgressClimbs | frontend/components/left-sidebar.tsx:71-85 | from 0 the progress is 10 per tick up to 100 and never leaves [0, 100] |
| LeftSidebar.ProgressVisibleWhileRunning | frontend/components/left-sidebar.tsx:147 | the bar shows exactly from the first to the ninth tick |
| LeftSidebar.ShownTags | frontend/components/left-sidebar.tsx:331 | exactly the first two tags, in order, or all of them when there are at most two, and none when the scan has no tags |
| LeftSidebar.ShownTagsIgnoreRest | frontend/components/left-sidebar.tsx:331 | with two or more tags, tags after the second never change the badges, which are the first two, and showing the shown tags again shows the same two |
| PolicyForms.CreatePolicy | frontend/components/policy-selector.tsx:37-50 | the upload is sent exactly when file, title and category are all set, with those values; on success the dialog closes, the form resets and the list is refetched; otherwise nothing changes; the management page's handler (policy-management.tsx:35-48) is the same |
| PolicyForms.CreateGuardAgrees | frontend/components/policy-selector.tsx:168 | the Create button is enabled exactly when a click sends the upload, and the server binds what it sends; the management page's button (policy-management.tsx:169) has the same guard |
| PolicyForms.ChooseFileEnablesCreate | frontend/components/policy-selector.tsx:52-57 | after choosing a file the form is complete exactly when title and category are set, and a Create then uploads the first chosen file with them |
| PolicyForms.RuleDeleteDisabledIffBothMatch | frontend/components/policy-selector.tsx:334-337 | a rule's delete button is disabled exactly while the delete of that rule of that policy runs, on both pages (policy-management.tsx:350-353 too) |
| PolicyForms.UpdateRule | frontend/components/policy-selector.tsx:86-98 | nothing happens without an open editor; otherwise a PATCH of the edited rule's URL carrying only the text; success closes the editor and refetches, failure keeps it open; the management page (policy-management.tsx:81-93) does the same |
| PolicyForms.EditThenSave | frontend/components/policy-selector.tsx:290-325 | clicking Edit on a rule and saving sends that rule's update with the typed text, or with its own text when nothing was typed; after Cancel a save sends nothing |
| PolicyForms.SaveUpdatesOnlyText | backend/internal/handler/handler.go:192-201 | the server turns a Save into an update map with the rule text alone |
| PolicyForms.EditorOpensInOtherPolicy | frontend/components/policy-selector.tsx:290 | as written, editing rule "R1" of one policy also opens the editor on rule "R1" of another policy, and the management page (policy-management.tsx:300) has the same test |
| PolicyForms.EditorOpensOnlyClickedRule | frontend/components/policy-selector.tsx:319-325 | keyed by policy and rule id, starting an edit opens the editor on the clicked rule and no other |
| PolicySelector.FindOther | frontend/components/policy-selector.tsx:65 | `find` gives the first listed policy other than the deleted one, or nothing exactly when every listed policy is the deleted one |
| PolicySelector.ReselectAsWritten | frontend/components/policy-selector.tsx:65 | the fallback `|| policies[0]` selects some listed policy whenever the list is non-empty |
| PolicySelector.Reselect | frontend/components/policy-selector.tsx:64-66 | the corrected choice is never the deleted policy, and is nothing exactly when no other policy is listed |
| PolicySelector.ReselectAgrees | frontend/components/policy-selector.tsx:64-66 | both choices agree whenever another policy is listed; they differ only when the deleted policy is the only one |
| PolicySelector.AfterDeleteAsWritten | frontend/components/policy-selector.tsx:59-72 | a failed delete, or a delete of an unselected policy, keeps the selection |
| PolicySelector.DeletedPolicyStaysSelected | frontend/components/policy-selector.tsx:64-66 | as written, deleting the only policy leaves that same policy selected; the corrected handler selects nothing |
| PolicySelector.AfterDelete | frontend/components/policy-selector.tsx:59-72 | the corrected selection after a delete; a failed delete, or a delete of an unselected policy, keeps the selection |
| PolicySelector.DeletedNeverSelected | frontend/components/policy-selector.tsx:59-72 | after a successful delete the deleted policy is never selected |
| DocumentUpload.Upload | frontend/components/document-upload.tsx:62-80 | the upload is sent exactly when a file and a policy are chosen, with those; on success the banner shows, and after the delay the card resets and the page is notified; a failure changes nothing |
| DocumentUpload.UploadSequence | frontend/components/document-upload.tsx:159-227 | with no policy chosen the disabled controls send nothing; the server reads back the chosen file and policy from a sent request; after a success the reset card sends nothing until a file and a policy are chosen again |
| DocumentUpload.RemoveUndoesChoose | frontend/components/document-upload.tsx:39-90 | removing a just-chosen file returns the card to its earlier state without the banner |
| DocumentUpload.ChooseEnablesUpload | frontend/components/document-upload.tsx:24-80 | choosing a policy and a file, in either order, gives the same card with the controls enabled, and an upload then sends that file for that policy; after Remove nothing is sent |
| ApiKeys.Entered | frontend/components/api-settings.tsx:28-30 | an accepted key is non-empty and trimmed |
| ApiKeys.EnteredAccepts | frontend/components/api-settings.tsx:28-30 | an input is accepted exactly when it has a non-space character, and the stored key is accepted again as itself |
| ApiSettings.MaskApiKey | frontend/components/api-settings.tsx:58-61 | an empty key masks to ""; otherwise the mask keeps the key's first seven and last four characters (fewer for a short key), with three characters between |
| ApiSettings.MaskHidesMiddle | frontend/components/api-settings.tsx:58-61 | keys of eleven or more characters that share their first seven and last four mask alike, to fourteen characters |
| ApiSettings.Load | frontend/components/api-settings.tsx:19-25 | the stored key, if any, fills both the shown key and the input |
| ApiSettings.StorageInSync | frontend/components/api-settings.tsx:19-63 | storage and the shown key agree after loading and after every handler, and demo mode shows exactly when storage holds no key |
| ApiSettings.SaveGuardAgrees | frontend/components/api-settings.tsx:160 | the disabled Save button does exactly what the handler's guard does; an enabled save leaves demo mode |
| ApiSettings.CancelDiscardsTyping | frontend/components/api-settings.tsx:46-49 | cancelling after typing restores the input to the saved key |
| ApiSettings.ReloadShowsSavedKey | frontend/components/api-settings.tsx:19-49 | a saved key is what a reload shows; with storage in sync, Save and Cancel survive a reload, and after Remove a reload shows demo mode and the same empty state |
| ApiKeyManager.DemoInvariantKept | frontend/components/api-key-manager.tsx:24-65 | demo mode holds exactly while there is no key, before loading and after every handler, and what is reported is the key now held |
| ApiKeyManager.ControlsMatchDemo | frontend/components/api-key-manager.tsx:121-127 | the Remove button shows, and the label reads "Update API Key", exactly outside demo mode |
| ApiKeyManager.ReloadRestoresKey | frontend/components/api-key-manager.tsx:30-65 | a reload after Save restores the saved key and reports it again; a reload after Remove is the initial demo state; saving an unchanged key keeps it |
| RateLimitDialog.Description | frontend/components/rate-limit-dialog.tsx:50 | the dialog never shows an empty description: the error message when there is one, and otherwise the demo-limit text |
| RateLimitDialog.SubmitAgrees | frontend/components/rate-limit-dialog.tsx:113 | Enter does what the button does, and the button is disabled exactly when a submit would do nothing |
| ScannerPage.KeysNeverRepeat | frontend/app/scanner/page.tsx:28 | every successful upload gives the list a key not used before, so the list remounts and refetches each time |
| ScannerPage.DialogKeepsMessage | frontend/app/scanner/page.tsx:161 | closing and reopening the dialog shows the same message again |
| ScannerPage.DetailsFollowSelection | frontend/app/scanner/page.tsx:150-154 | nothing is detailed at first; a picked document is detailed exactly while the documents tab is active; an upload switches to that tab and keeps the document selected and detailed |
| LandingPage.ScanCounts | frontend/app/page.tsx:33-35 | from 0 the scan progress is the tick count modulo 101, so it stays in [0, 100] |
| LandingPage.ScanPeriodic | frontend/app/page.tsx:33-35 | the scan animation repeats every 101 ticks |
| LandingPage.FeatureStep | frontend/app/page.tsx:38 | the highlighted feature advances one card, cyclically through the three |
| LandingPage.FeatureCycles | frontend/app/page.tsx:37-39 | from whichever card was last hovered or initially shown, n ticks later the card is n further on, modulo three |
| LandingPage.FeaturePeriodic | frontend/app/page.tsx:37-39 | the carousel repeats every three ticks |
| Text.TrimEmpty | backend/internal/service/service.go:144 | trimming gives "" exactly when every character is whitespace |
| Text.JsTrimTruthy | frontend/components/api-settings.tsx:28 | `s.trim()` is truthy exactly when `s` has a non-whitespace character |
| Text.SplitJoin | backend/internal/service/service.go:168-172 | `Split` inverts `Join` when no piece holds the separator |
| Text.ParseNatToString | frontend/lib/api.ts:147 | the decimal rendering of a number reads back as that number |
| Seqs.FilterMembers | frontend/components/left-sidebar.tsx:56 | `filter` keeps exactly the elements that satisfy the predicate, in order |
| Seqs.FilterComplement | frontend/components/main-canvas.tsx:168-175 | filtering by a predicate and by its negation splits the sequence |

## Left out

- I/O: file opening, Tika, HTTP, JSON encoding and decoding, PostgreSQL, logging, toasts and `console.error` are outside the model. Their results or failures are parameters, and JSON decoding is an opaque function.
- Internationalisation: localized messages are modelled by their keys (the `Localized` message of `Handler`), because the translation tables in `backend/internal/utils/i18n.go` are not part of this model.
- Concurrency and timing: intervals, timeouts, React batching and re-render order are reduced to sequences of ticks or to one step per handler. The 2-second delay in the document upload is the `afterDelay` state.
- UseApi.FetchDocuments: the abort controller and the mounted flag are boolean parameters. `aborted` stands for the hook's current controller being aborted, which happens only in the unmount cleanup. Overlapping fetches are not modelled: a superseded fetch reads the newer, un-aborted controller and still writes its stale page, and the signal is never passed to `fetch`.
- `uuid.New`, `uuid.MustParse` and `uuid.Parse`: fresh ids are parameters. Ids reach the service already parsed, so the panic of `MustParse` on a malformed id is not modelled.
- Date formatting (`Format("2006-01-02")`) is a parameter of `Handler.PolicyToDto`.
- Filename.LowerUnderscore: Go's `strings.ToLower` is modelled on ASCII letters only, because full Unicode case mapping is out of scope. Non-ASCII upper-case letters are kept as they are.
- Text.NatToString: JavaScript renders integers in decimal the same way only for safe integers. Floating-point page numbers are not modelled.
- The request fields of the chat payloads other than messages and schema (temperature, top-p, stop sequence, token limits) are recorded as constants only, and the response schemas are named, not spelled out. The compliance schema lists `violation_percentage` as required without defining it; that oddity has no effect here.
- The GORM soft delete (`DeletedAt`) and cascading are not modelled: a delete removes rows, and deleting a policy leaves its rules and documents, as the code issues no cascade.
- Repository.UpdateRule: the rules table's columns are the fixed set `RuleColumns`. A key outside it fails with one constant standing for Postgres's undefined-column error, without the column's name. Updates to the existing columns other than `rule_text` are not applied, because no caller builds such a map.
- Repository.GetAllPolicies, Repository.GetAllDocuments, Service.PageContains, Service.PageAt: the listings issue `Offset`/`Limit`/`Find` with no ORDER BY, so PostgreSQL promises no order and separate pages may overlap or skip rows. The model fixes insertion order, and the page lemmas hold only under that order.
- Presentation: icons, CSS classes, drag-over highlighting, tabs other than the scanner's, the copy-to-clipboard button, the show-key toggle, mobile menus and static marketing text on the landing page.
- `window.location.reload()` in the scanner page's API-key submit is outside the model.
- The health-check interval length and the polling of `checkHealth` are the sequence given to `UseApi.HealthAfter`.
- MainCanvas.Rotate: requires a non-negative angle. The state starts at 0 and only this handler changes it, so JavaScript's sign-keeping `%` on negative angles never arises.
- DocumentsList.CeilDiv: requires a positive page size. The server's binding guarantees 1..50, so JavaScript's division by zero is not modelled.
- The server-side middleware (request ids, locale), `cmd/` start-up and the Tika client are outside the named core.

## Findings

| source | as written | input that shows it | evidently intended | confidence | as-written member | corrected member |
|---|---|---|---|---|---|---|
| backend/internal/handler/handler.go:161-171 | `HandleDeleteRule` passes the route's `:id`, the policy id, to `DeleteRule`, which deletes by rule primary key | DELETE /api/v1/policy/p/rule/R1 where policy p holds rule R1: the reply is 200 and the rule stays | delete the rules of policy `:id` whose rule id is `:rule_id` | not executed | Handler.HandleDeleteRuleAsWritten, Handler.DeleteRuleAsWrittenKeepsRule | Handler.HandleDeleteRule, Handler.DeleteRuleRemovesRule |
| backend/internal/repository/repository.go:79-101 | `GetAllDocuments` does not preload `Policy`, so `document.Policy.Title` is Go's zero value | a document checked against the policy "Privacy" is listed with `policy_title` "" | `Preload("Policy")`, so each document names its policy | not executed | Repository.GetAllDocumentsAsWritten, Handler.HandleGetDocumentsAsWritten, Handler.ListedAsWrittenWithoutTitle, Handler.DocumentListedWithoutPolicyTitle | Repository.GetAllDocuments, Service.GetDocuments, Handler.HandleGetDocuments, Handler.ListedDocumentPolicyTitle |
| backend/internal/service/service.go:151 | `(page - 1) * pageSize` is computed in 64-bit `int`, and `page` has no upper bound | page=184467440737095518&page_size=50: the offset wraps negative and the first page is returned | an empty page beyond the data | not executed | Service.OffsetAsWritten, Service.OffsetWraps, Service.WrappedPageIsFirstPage, Service.GetPoliciesAsWritten, Handler.HugePageListsFirstPolicy | Service.Offset, Service.PageAt, Service.PageContains, Service.GetPolicies, Handler.HandleGetPolicies |
| frontend/components/policy-selector.tsx:64-66 | after deleting the selected policy, `find(...) \|\| policies[0]` falls back to the first listed policy, which may be the deleted one | deleting the only policy p while p is selected leaves p selected | select another policy, or none | not executed | PolicySelector.ReselectAsWritten, PolicySelector.DeletedPolicyStaysSelected | PolicySelector.Reselect, PolicySelector.AfterDelete, PolicySelector.DeletedNeverSelected |
| frontend/components/policy-selector.tsx:290 | the editor is shown on every rule whose `rule_id` equals the edited one, whatever its policy; rule ids are labels chosen by the extraction model | editing "R1" of policy-a also opens the editor on "R1" of policy-b | open the editor only on the clicked rule of the clicked policy | not executed | PolicyForms.EditorOpenAsWritten, PolicyForms.EditorOpensInOtherPolicy | PolicyForms.EditorOpen, PolicyForms.EditorOpensOnlyClickedRule |
| frontend/hooks/use-api.ts:155 | `err instanceof ApiError` tests against a name that frontend/lib/api.ts does not export, so the right-hand side is `undefined` and, in a bundle built despite the missing export, the test throws a TypeError inside the catch block | any failed upload, such as a 500 reply: `error` stays null and the caller receives "Right-hand side of 'instanceof' is not an object" | show the failure's message, or the rate-limit text, and rethrow | not executed | UseApi.UploadAsWritten, UseApi.UploadFailureHidden | UseApi.Upload, UseApi.UploadErrorShown, UseApi.UploadRethrowStable |
