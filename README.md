# Revision engine of the website builder

This is a Dafny model of the project controller of an AI website builder
(`server/dist/controllers/projectController.js`). A signed-in user owns website projects. Each
project has a current HTML page, an append-only list of versions, and a conversation log.

The model covers six handlers:

- `makeRevision` charges the caller five credits. It asks the text generator twice: once to
  enhance the request, once for the new page. It strips Markdown code fences from the page,
  stores the page as a new version and points the project at it. On failure it refunds the
  credits.
- `rollbackToVersion` points a project back at one of its versions.
- `saveProjectCode` overwrites the current page.
- `deleteProject` removes a project.
- `getProjectPreview` is the owner's view of a project and its versions.
- `getProjectById` is the public view of a published page.

The files, in dependency order:

- `optional.dfy` holds `Option`.
- `text.dfy` (module `JsText`) is JavaScript's `String.prototype.trim`, over an explicit
  whitespace set.
- `fences.dfy` (module `Fences`) is the code extractor, written out by hand:
  - the regular expression ``/```[a-z]*\n?/gi`` with a global replace;
  - the anchored replace of ``/```$/``;
  - `trim`.
- `generator.dfy` (module `Generator`) covers what one call of `generateWithHF` can give the
  handler: text, `undefined`, or a thrown error. It also covers how the client maps an HTTP
  reply onto those three (`server/lib/huggingface.ts`).
- `records.dfy` (module `Records`) holds the stored records and the store invariant
  `Consistent`:
  - balances are non-negative;
  - version ids are unique and non-empty;
  - every project's version pointer is `""` or one of its own versions.
- `handlers.dfy` (module `Handlers`) gives each handler as a function from the store before
  a request to the store afterwards plus the reply. Each awaited store call is one named call
  site. A `Fault` value says which call site throws, if any, so every path into a `catch`
  block is modelled.
- `revision_properties.dfy` and `handler_properties.dfy` hold the properties of those
  functions.
- `scenarios.dfy` holds two end-to-end revisions with a stubbed generator.
- `controller.dfy` (class `Controller.ProjectStore`) holds the store's four tables as
  mutable fields. Each handler is a method that makes the store's assignments in the code's
  order. Each method is proved to end in the state and reply of its `Handlers` function and
  to keep `Consistent`.

Inputs the handlers take from outside are parameters:

- the authenticated user id, as `Option<UserId>`. User ids are non-empty strings. A request
  whose id is missing or empty fails the `!userId` tests (lines 12, 135, 191, 252), and it
  is given as `None`;
- the request's parameters and body;
- the generator's two results, as `Gen` values;
- the faulting store call;
- the id the store will give the new version.

### Behaviours the model exposes

The model follows the code as written, and a lemma pins down each of these behaviours:

- **Refunds with no debit.** The `catch` block (lines 122-126) refunds five credits whatever
  threw. That includes a failed user or project lookup before the debit at line 37
  (`FailedLookupMintsCredits`, `CallerBalance`).
- **Refunds after a version exists.** When logging the success entry (line 103) or updating
  the project (line 110) throws, the version created at line 93 stays and the caller is
  still refunded (`RefundDespiteNewVersion`).
- **Failures with no failure entry.** Only an empty or `undefined` generation result takes
  the path at lines 79-92, which logs a failure entry. A thrown generator call, whether it
  is the enhancement or the generation, goes to the `catch` block, which logs nothing
  (`EnhancementThrowLogsNoFailure`, `RevisionFailureScenario`).
- **An empty enhancement is not checked.** An enhancement that returns `undefined` or `""`
  is logged (as the text `undefined`, or empty quotes) and the generation still runs: success
  needs only that the enhancement call does not throw (`SuccessChargesOnce`).
- **Separate store calls.** A revision can leave a new version behind without pointing the
  project at it (`VersionsAndProjects`). A rollback can repoint the project (line 150) and
  still answer with an error when the log entry at line 157 throws
  (`RollbackRestoresVersion`).

## Model

| member | source | states |
|---|---|---|
| JsText.TrimStartIsSuffix | server/dist/controllers/projectController.js:98 | trimming the front leaves a suffix that starts with no whitespace, and everything dropped was whitespace |
| JsText.TrimEndIsPrefix | server/dist/controllers/projectController.js:98 | trimming the end leaves a prefix that ends with no whitespace, and everything dropped was whitespace |
| JsText.TrimIsTrimmed | server/dist/controllers/projectController.js:20 | `trim` leaves whitespace at neither end, and gives "" exactly when the string is all whitespace (the message guard) |
| JsText.TrimmedIsFixed | server/dist/controllers/projectController.js:98 | `trim` leaves an already trimmed string unchanged |
| JsText.TrimIdempotent | server/dist/controllers/projectController.js:98 | trimming twice is trimming once |
| JsText.TrimDropsLineFeed | server/dist/controllers/projectController.js:98 | a trimmed non-empty line followed by a line feed trims to the line |
| Fences.SkipLetters | server/dist/controllers/projectController.js:96 | the fence's `[a-z]*` with the `i` flag drops a prefix made only of ASCII letters, leaving a suffix whose first character, if any, is not one: the longest such run |
| Fences.SkipLineFeed | server/dist/controllers/projectController.js:96 | the fence's `\n?` drops at most one character, and drops one exactly when the text starts with a line feed |
| Fences.StripOpeningLeavesNoFence | server/dist/controllers/projectController.js:96 | after the global replace of opening fences, no triple backtick is left anywhere |
| Fences.StripOpeningFixesFenceFree | server/dist/controllers/projectController.js:96 | text with no triple backtick passes the first replace unchanged |
| Fences.StripOpeningAppend | server/dist/controllers/projectController.js:96 | a fence-free prefix not ending in a backtick is copied through, and the replace goes on with the rest |
| Fences.ClosingReplacementIsInert | server/dist/controllers/projectController.js:96-97 | the anchored second replace never changes the first replace's output |
| Fences.StripFencesIsClean | server/dist/controllers/projectController.js:95-98 | the extracted code contains no triple backtick and has no whitespace at either end |
| Fences.StripFencesIdempotent | server/dist/controllers/projectController.js:95-98 | extracting code from extracted code changes nothing |
| Fences.StripOpeningOfFenced | server/dist/controllers/projectController.js:96 | the first replace takes every fence-free body back out of a fence with a letter-only tag, including one that ends in one or two backticks (the closing match then starts at the body's first trailing backtick and leaves those in place) |
| Fences.StripFencesOfFenced | server/dist/controllers/projectController.js:95-98 | round trip: every fenced fence-free body comes out of the extractor as the trimmed body |
| Fences.StripFencesOfFencedBackticks | server/dist/controllers/projectController.js:95-98 | a fenced body made of the letter x and two backticks comes out whole |
| Fences.StripFencesOfFencedLine | server/dist/controllers/projectController.js:95-98 | a fenced single trimmed line without backticks comes out as exactly that line |
| Fences.StripFencesExample | server/dist/controllers/projectController.js:95-98 | "```html\n<p>hi</p>\n```" comes out as "<p>hi</p>" |
| Fences.ScanOpeningIsStripOpening | server/dist/controllers/projectController.js:96 | the one-pass scan the handlers use produces exactly what the global replace produces |
| Fences.ExtractCodeIsStripFences | server/dist/controllers/projectController.js:113-116 | the code stored in the project and in the version equals the three-step extractor on every input |
| Generator.GenerateWithHF | server/lib/huggingface.ts:30-43 | throws exactly on a failed request, a non-2xx status, a non-JSON body or an `error` member; otherwise gives the message content when it is a non-empty string, else `generated_text` as it is, else `undefined` |
| Records.VersionsOf | server/dist/controllers/projectController.js:139-142 | a project's included versions are exactly the stored versions with its id |
| Records.FindVersion | server/dist/controllers/projectController.js:146 | `find` gives none exactly when no version has the id, and otherwise the first version with that id |
| Records.FindVersionOfProject | server/dist/controllers/projectController.js:139-149 | looking the id up among the project's versions succeeds exactly when the project has a version with that id, and gives one of its own versions |
| Records.AddVersionKeepsConsistent | server/dist/controllers/projectController.js:93-102 | appending a version with a fresh id keeps the store invariant |
| Records.RepointKeepsConsistent | server/dist/controllers/projectController.js:150-156 | pointing a project at "" or at one of its own versions keeps the store invariant |
| Records.SetCreditsKeepsConsistent | server/dist/controllers/projectController.js:37-42 | changing balances to non-negative ones keeps the store invariant |
| Handlers.IsBlankIsEmptyTrim | server/dist/controllers/projectController.js:20 | a message is blank exactly when it is missing or `message.trim() === ""` |
| RevisionProperties.GenerateBalance | server/dist/controllers/projectController.js:79-126 | after the enhancement entry, the caller's balance goes back up by five on every path except success, where it is unchanged |
| RevisionProperties.GenerateVersions | server/dist/controllers/projectController.js:93-119 | after the enhancement entry, a version is appended exactly when the result is non-empty text and creating the version does not throw; the project is repointed only on success |
| RevisionProperties.ChargeBalance | server/dist/controllers/projectController.js:37-63 | from the debit on, the caller ends five down on success, five up when the debit itself throws (the catch still refunds), and even on every other path |
| RevisionProperties.ChargeVersions | server/dist/controllers/projectController.js:37-119 | from the debit on, the version list and the projects change as `CreatesVersion` and success say |
| RevisionProperties.RejectionsInOrder | server/dist/controllers/projectController.js:9-29 | each rejection (401, 403, 400, 404) is given exactly when every earlier guard passed and its own check fails, and a rejection leaves the store unchanged |
| RevisionProperties.CallerBalance | server/dist/controllers/projectController.js:37-42 | only the caller's balance changes: down five on success, up five when the catch ran before the debit, unchanged otherwise |
| RevisionProperties.VersionsAndProjects | server/dist/controllers/projectController.js:93-119 | the version list grows by the extracted code exactly when the version was created; the project is repointed to it exactly on success and unchanged otherwise |
| RevisionProperties.BalanceNeverNegative | server/dist/controllers/projectController.js:15-19 | no revision makes a non-negative balance negative |
| RevisionProperties.FailedLookupMintsCredits | server/dist/controllers/projectController.js:9-11 | a thrown user lookup for a known user answers 500 and adds five credits that were never taken |
| RevisionProperties.GenerationFailureRestoresStore | server/dist/controllers/projectController.js:79-92 | the failure reply is given exactly on an empty or `undefined` result with no store fault; then balances, versions and projects are as before and the request, enhancement and failure entries are logged |
| RevisionProperties.SuccessChargesOnce | server/dist/controllers/projectController.js:93-120 | success happens exactly when every guard passes, both generator calls return, the text is non-empty and no store call throws; it costs five credits, adds one version, repoints the project and logs three entries |
| RevisionProperties.RefundDespiteNewVersion | server/dist/controllers/projectController.js:103-126 | when the success entry or the project update throws, the new version stays but the caller is refunded and the project is unchanged |
| RevisionProperties.EnhancementThrowLogsNoFailure | server/dist/controllers/projectController.js:44-63 | a thrown enhancement call after the debit answers 500 with balances, versions and projects as before and only the request logged |
| RevisionProperties.RevisionKeepsConsistent | server/dist/controllers/projectController.js:4-130 | a revision keeps the store invariant |
| HandlerProperties.RollbackRejections | server/dist/controllers/projectController.js:135-149 | rollback rejects an anonymous caller, then a project not the caller's, then an unknown version, and each rejection changes nothing |
| HandlerProperties.RollbackRestoresVersion | server/dist/controllers/projectController.js:146-164 | rollback succeeds exactly when the caller owns the project, it has a version with the id and no store call throws; success points the project at that version's code and id and logs one entry; when the entry's store call throws, the error reply comes with the repoint already made and nothing logged; balances and versions never change |
| HandlerProperties.RollbackCodeIsVersionCode | server/dist/controllers/projectController.js:146-155 | with unique ids the restored code is the code of the version with that id |
| HandlerProperties.RollbackKeepsConsistent | server/dist/controllers/projectController.js:150-156 | rollback keeps the store invariant |
| HandlerProperties.SaveRejections | server/dist/controllers/projectController.js:252-263 | save rejects an anonymous caller, then missing or empty code, then a project not the caller's, changing nothing |
| HandlerProperties.SaveOverwrites | server/dist/controllers/projectController.js:264-271 | a successful save stores the code as sent, clears the version pointer, and changes nothing else |
| HandlerProperties.SaveAcceptsWhitespace | server/dist/controllers/projectController.js:255-270 | non-empty code made only of whitespace is accepted from the owner and stored untrimmed |
| HandlerProperties.SaveKeepsConsistent | server/dist/controllers/projectController.js:264-270 | save keeps the store invariant |
| HandlerProperties.DeleteScoped | server/dist/controllers/projectController.js:176-184 | delete removes exactly the caller's project and keeps its versions and log; otherwise it answers 500 and changes nothing |
| HandlerProperties.DeleteKeepsConsistent | server/dist/controllers/projectController.js:176-178 | delete keeps the store invariant |
| HandlerProperties.PublicViewIff | server/dist/controllers/projectController.js:233-239 | the public view returns code exactly when the project exists, is published and has non-empty code, and that code is the project's |
| HandlerProperties.PublicViewIgnoresOwner | server/dist/controllers/projectController.js:233-235 | the public view does not depend on the project's owner |
| HandlerProperties.UnpublishHides | server/dist/controllers/projectController.js:236 | an unpublished project is not found by the public view |
| HandlerProperties.PreviewScoped | server/dist/controllers/projectController.js:191-201 | the preview shows a project only to its owner, with exactly that project's versions |
| HandlerProperties.VersionsAreImmutable | server/dist/controllers/projectController.js:93-102 | revision only appends versions; rollback, save and delete leave the versions unchanged |
| HandlerProperties.RollbackToOwnVersion | server/dist/controllers/projectController.js:146-164 | rolling back to a version of one's own project succeeds and copies that version's code and id |
| HandlerProperties.RollbackUndoesRepoint | server/dist/controllers/projectController.js:150-156 | after a project is repointed, rolling back to the version it pointed at restores its previous code and pointer |
| HandlerProperties.RollbackUndoesRevision | server/dist/controllers/projectController.js:110-119 | rolling back to the version a project pointed at before a successful revision restores the project as it was |
| HandlerProperties.SaveThenPublicView | server/dist/controllers/projectController.js:264-270 | code saved into a published project is what the public view then returns |
| Scenarios.StubbedPageExtracted | server/dist/controllers/projectController.js:95-98 | the stubbed reply "```html\n<html>new</html>\n```" is stored as "<html>new</html>" |
| Scenarios.RevisionScenario | server/dist/controllers/projectController.js:4-120 | ten credits and a fenced reply: success, five credits left, one version with the bare page, project repointed, three entries logged |
| Scenarios.RevisionFailureScenario | server/dist/controllers/projectController.js:122-129 | a throwing generator: 500, balance back at ten, no version, project unchanged, only the request logged |
| Controller.ProjectStore.RefundInCatch | server/dist/controllers/projectController.js:122-129 | the catch block adds five credits to the caller and answers 500, or cannot answer when the user record is missing |
| Controller.ProjectStore.MakeRevision | server/dist/controllers/projectController.js:4-130 | the store ends as `RevisionOutcome` says, keeps its invariant and only gains versions |
| Controller.ProjectStore.ChargeAndGenerate | server/dist/controllers/projectController.js:37-63 | from the debit on, the store ends as the `Charge` phase says |
| Controller.ProjectStore.StoreGeneration | server/dist/controllers/projectController.js:79-119 | from the enhancement entry on, the store ends as the `Generate` phase says |
| Controller.ProjectStore.RollbackToVersion | server/dist/controllers/projectController.js:132-170 | the store ends as `RollbackOutcome` says, keeps its invariant, and balances and versions are untouched |
| Controller.ProjectStore.SaveProjectCode | server/dist/controllers/projectController.js:247-277 | the store ends as `SaveOutcome` says, keeps its invariant, and only projects may change |
| Controller.ProjectStore.DeleteProject | server/dist/controllers/projectController.js:172-185 | the store ends as `DeleteOutcome` says, keeps its invariant, and only projects may change |
| Controller.ProjectStore.GetProjectById | server/dist/controllers/projectController.js:230-245 | returns code exactly when the project exists, is published and has code; that code is the project's; otherwise 404 or 500 |
| Controller.ProjectStore.GetProjectPreview | server/dist/controllers/projectController.js:187-207 | returns what `Handlers.GetProjectPreview` gives for the current store |

## Left out

- Not modelled:
  - HTTP status codes and JSON message texts (replies are the classified `Response` values);
  - console logging;
  - route wiring;
  - `getPublishedProjects` and its connection-error mapping.
- The generator's prompt templates, and what the generator does with them, are not modelled.
  Each call's result is a parameter, so the model does not capture that the second call sees
  the first call's output or the project's current code. The network request of
  `server/lib/huggingface.ts` is an input reply value.
- Concurrency is not modelled. Two requests can both pass the balance check before either
  debits, and concurrent revisions of one project are last-write-wins.
- Store semantics are reduced to maps and sequences:
  - ids and timestamps the store generates are parameters (`newVersionId`), or are not
    recorded;
  - cascading deletes are not modelled (a deleted project's versions and log stay in the
    sequences);
  - the store library's treatment of an `undefined` id in a filter is not modelled. A
    revision with no user id answers 401 (line 12), and a delete with no user id matches
    nothing and answers 500.
- Controller.ProjectStore.RefundInCatch: the refund's own update fails only when the
  caller's record is missing (the handler then sends no reply). Any other failure of that
  update is not modelled.
- Non-string request bodies (a `message` or `code` that is a number or an object) are not
  modelled. The message and the code are `Option<string>`.
- Generator.GenerateWithHF: a `content` or `generated_text` that is JSON `null` or not a
  string cannot be written in `Generator.Body`, so the model does not capture that such a
  value passes through (an interpolated `null` is logged as "null"). Each field is a string
  or absent.
- The two regular expressions are written out for this one pattern pair, not as a general
  regex engine. `trim` uses ECMAScript's WhiteSpace and LineTerminator code points listed in
  `JsText.IsWhitespace`; strings are sequences of Unicode scalar values, so lone UTF-16 surrogates are not represented. Neither `trim` nor the fence pattern depends on this.
