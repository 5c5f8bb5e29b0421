# penpal — a verified model of the editing and review core

penpal is a collaborative writing application: a Next.js front end over a
Convex backend. Documents are edited directly, and they can also be changed
through three review workflows:

- **AI change groups.** An AI rewrite is stored as a list of *change groups*.
  Each group holds deletions and insertions in the coordinates of the
  original text. The inline view shows the groups over the original text.
  Accepting the suggestion rewrites the document by applying the groups from
  the rightmost one down.
- **Single-span suggestions.** A language model proposes insert, delete or
  replace edits over `[startIndex, endIndex)`. A validity filter keeps the
  well-formed ones. They can then be accepted or rejected one at a time or in
  bulk.
- **Change control.** The editor reduces an edit to one changed span by
  stripping the common prefix and suffix of the old and new text. The span is
  submitted as a pending change. Approving the change splices it into the
  document.

Two small record state machines sit beside these: the review status of a
document and the todo list.

This project models those handlers as pure Dafny functions over in-memory
tables. Each table is a map from identifiers to records. A handler returns
either the tables it writes or the error it throws. The project also proves
the properties the code and its comments promise:

- the position safety of right-to-left application;
- the round trip from detected change to approved document;
- the completeness of the inline view;
- the status guards;
- "nothing else changes" for every handler.

Layout (one module per file):

| module | file | models |
|---|---|---|
| `Text` | text.dfy | JavaScript `substring`/`slice` index clamping; the three-way splice; spans and the left-to-right `Rebuild` reference; generic position-safety lemmas |
| `Sorting` | sorting.dfy | the stable `Array.prototype.sort`, as a stable insertion sort by a descending key |
| `Schema` | schema.dfy | identifiers, `Option`, `Result`, the error messages, the document row |
| `ChangeGroups` | change_groups.dfy | the change-group applier of `accept` in convex/aiSuggestions.ts |
| `AiSuggestions` | ai_suggestions.dfy | `create`, `accept`, `reject`, `clearPending` in convex/aiSuggestions.ts |
| `Suggestions` | suggestions.dfy | the handlers of convex/suggestionMutations.ts |
| `SuggestionActions` | suggestion_actions.dfy | `generateSuggestions` in convex/suggestionActions.ts, with the model call as a parameter |
| `ChangeDetector` | change_detector.dfy | `detectChanges` and the submit classification in components/ChangeControlEditor.tsx |
| `ChangeControl` | change_control.dfy | the handlers of convex/changeControlChanges.ts |
| `InlineSuggestions` | inline_suggestions.dfy | the segment walk of `renderContentWithSuggestions` in components/InlineSuggestions.tsx |
| `Documents` | documents.dfy | `createDocument`, `updateContent`, `approveChange`, `rejectChange` in convex/documents.ts |
| `Todos` | todos.dfy | `create`, `toggleComplete`, `remove`, `update` in convex/todos.ts |

Modelling conventions:

- **Text and indices.** Text is `seq<char>`. Positions are JavaScript numbers,
  modelled as `int`. The handlers cut text in two different ways, and both are
  modelled exactly:
  - the change-group applier and the inline view use `substring`, which
    clamps a negative index to 0;
  - the suggestion and change-control splices use `slice`, which counts a
    negative index from the end.
- **Identifiers, clock and caller.** A creation handler receives the
  identifier the database will allocate, and it must not be in use yet.
  `Date.now()` is a `now` parameter. The caller is an `Option<Identity>`.
- **Missing and empty fields.** Convex's `patch` with an `undefined` field
  clears that field. So `update` on a todo without a description clears the
  description, and `approveChange` on a document without `currentContent`
  clears `originalContent`.
- **Duplicate identifiers.** `bulkAcceptSuggestions` fetches each given
  identifier separately, so an identifier given twice is fetched, kept and
  applied twice. The model does the same (`Suggestions.Fetched`), and
  `Suggestions.RepeatedIdAppliedTwice` states the consequence.

## Model

| member | source | states |
|---|---|---|
| Text.SubstringIndex | convex/aiSuggestions.ts:156-165 | The index `substring` actually uses: inside `[0, n]`, equal to the argument when that lies inside. |
| Text.SliceIndex | convex/suggestionMutations.ts:70-82 | The index `slice` actually uses: inside `[0, n]`, the argument when it lies inside, and `n + i` for a negative `i` that does not pass the start. |
| Text.Splice | convex/suggestionMutations.ts:70-82 | The text before a non-negative in-range start is never touched. For `0 <= start <= end <= |s|`, insert gives `s[..start] + t + s[start..]`, delete gives `s[..start] + s[end..]`, replace gives `s[..start] + t + s[end..]`. The length grows by `|t|` and shrinks by `end - start` as the shape dictates. |
| Text.InsertThenDelete | convex/suggestionMutations.ts:70-76 | Deleting the span that an insertion just added gives back the original text. |
| Text.ReplaceWithSameText | convex/suggestionMutations.ts:77-82 | Replacing a span by the text it already holds changes nothing. |
| Text.ApplyEachDescendingRebuilds | convex/aiSuggestions.ts:149-151 | The claim behind "apply from end to start", for any editing step. Edits whose spans fit the text and lie one before another, applied highest first, leave exactly the left-to-right rebuild of the original through the same spans in ascending order. |
| Text.ApplyEachKeepsPrefix | convex/aiSuggestions.ts:149-150 | A run of edits, each of which keeps the first `k` characters of any text, keeps the first `k` characters of the start text. |
| Sorting.SortDesc | convex/aiSuggestions.ts:151 | The result is a permutation of the input (same multiset) in non-increasing key order. |
| Sorting.SortDescStable | convex/suggestionMutations.ts:178 | Stability: for every key value, the elements carrying it appear in the sorted result in their input order. |
| Sorting.SortDescPairwise | convex/aiSuggestions.ts:151 | A symmetric relation that holds between every two input elements still holds between every two sorted elements. |
| Sorting.StrictlySortedUnique | components/InlineSuggestions.tsx:64 | Two arrangements of the same elements that are both strictly ascending by a key are the same sequence. |
| Sorting.SortDescOfSorted | convex/suggestionMutations.ts:178 | Sorting a sequence that is already in non-increasing key order leaves it unchanged. |
| ChangeGroups.DeleteAt | convex/aiSuggestions.ts:156-158 | For an in-range deletion, the result is the text with `text.length` characters removed at `position`; it is never longer than the input. |
| ChangeGroups.InsertAt | convex/aiSuggestions.ts:163-165 | For an in-range position, the result is the text with the insertion's text placed at `position`; the length grows by exactly that text's length. |
| ChangeGroups.GroupStepsOrder | convex/aiSuggestions.ts:154-166 | Within a group, every deletion is performed before any insertion. Each kind goes in non-increasing position order. The steps are exactly the group's deletions, then exactly its insertions, as multisets. |
| ChangeGroups.ProcessingOrder | convex/aiSuggestions.ts:151 | The groups are visited in non-increasing `startPos` order, whatever order they are stored in, and each stored group is visited exactly once. |
| ChangeGroups.ApplyChangeGroups | convex/aiSuggestions.ts:147-167 | With no change groups, the content written is the starting content. |
| ChangeGroups.ApplyGroupKeepsPrefix | convex/aiSuggestions.ts:149-167 | A group whose deletions and insertions all sit at or after `k` leaves `content[..k]` unchanged, so the lower groups, applied later, still find their text. |
| ChangeGroups.ApplyGroupReplacesSpan | convex/aiSuggestions.ts:153-166 | Take a group whose deletions tile `[startPos, endPos)` and whose insertions sit at `startPos`. Applying it replaces exactly `[startPos, endPos)` by the inserted text, even though the insertions go into the already-shortened string. |
| ChangeGroups.ApplyChangeGroupsRebuilds | convex/aiSuggestions.ts:147-167 | Position safety of `accept`. For well-formed, in-range, pairwise-apart groups, stored in any order, the content written is the original read left to right with every group's span replaced. The ascending arrangement is a permutation of the stored groups and is strictly left to right. |
| ChangeGroups.ApplyStoredGroupsRebuilds | convex/aiSuggestions.ts:147-167 | For groups stored left to right and strictly apart, the content written is the original rebuilt through the groups in their stored order. |
| ChangeGroups.StoredOrderAscends | convex/aiSuggestions.ts:151 | Groups stored strictly left to right lie pairwise apart, and `accept` visits them in exactly the reverse of their stored order. |
| AiSuggestions.Create | convex/aiSuggestions.ts:8-45 | Succeeds exactly when the caller is signed in and owns the document. Otherwise the error is the first failing check's: "not authenticated", then "document not found", then "unauthorized access". On success it adds one pending suggestion with the given groups and leaves every other row alone. |
| AiSuggestions.Accept | convex/aiSuggestions.ts:119-177 | Succeeds exactly when the suggestion exists and the caller owns its document; otherwise the first failing check's error is returned. On success the suggestion becomes accepted and the document's content becomes the result of applying the groups to `content || ""`. Nothing else changes. |
| AiSuggestions.Reject | convex/aiSuggestions.ts:182-208 | The same checks as accept. On success only the suggestion's status changes, to rejected; no document changes. |
| AiSuggestions.ClearPending | convex/aiSuggestions.ts:213-234 | Only sign-in is checked. Exactly the pending suggestions of the document become rejected, and every other suggestion is unchanged. |
| AiSuggestions.ClearPendingLeavesNonePending | convex/aiSuggestions.ts:221-230 | After a clear, no suggestion of the document is pending, and suggestions of other documents are untouched. |
| AiSuggestions.ClearPendingIdempotent | convex/aiSuggestions.ts:213-234 | Clearing twice is the same as clearing once. |
| AiSuggestions.AcceptIgnoresStatus | convex/aiSuggestions.ts:127-143 | `accept` does not look at the prior status: an accepted or rejected suggestion gives exactly the same result as a pending one. |
| AiSuggestions.AcceptWithoutGroups | convex/aiSuggestions.ts:147-173 | With no change groups, the content written is `content || ""`. |
| AiSuggestions.AcceptReplacesSpans | convex/aiSuggestions.ts:145-173 | Position safety at the handler level. For well-formed, in-range, pairwise-apart groups, the document's new content is the stored content with each group's span replaced, read left to right. |
| AiSuggestions.CreateThenAccept | convex/aiSuggestions.ts:37-171 | A freshly created suggestion, once accepted, is accepted and applies exactly the groups it was created with. |
| AiSuggestions.ClearPendingThenReject | convex/aiSuggestions.ts:182-234 | Rejecting a suggestion that a clear already rejected changes nothing. |
| Suggestions.CreateSuggestion | convex/suggestionMutations.ts:8-34 | Adds one pending suggestion holding every given field (document, type, span, texts, prompt, model response) and the creation time. Every existing row is unchanged. |
| Suggestions.AcceptSuggestion | convex/suggestionMutations.ts:39-99 | Succeeds exactly when the caller is signed in, the suggestion exists and is pending, and its document exists; otherwise the first failing check's error is returned. On success, the working text (`currentContent || content || ""`) is spliced and written to both `currentContent` and `content`, the suggestion becomes accepted, and nothing else changes. |
| Suggestions.RejectSuggestion | convex/suggestionMutations.ts:104-132 | Succeeds exactly when the caller is signed in and the suggestion exists and is pending; each failure has its own error. On success only the status changes, to rejected. |
| Suggestions.Fetched | convex/suggestionMutations.ts:156-170 | Each kept entry exists, is pending, belongs to the document and carries the stored suggestion. The kept identifiers are exactly the given ones that pass that filter. |
| Suggestions.FetchedAppend | convex/suggestionMutations.ts:156-170 | The fetch keeps the given order and keeps repeats: fetching a concatenation of identifier lists gives the concatenation of the fetches. |
| Suggestions.FetchedOne | convex/suggestionMutations.ts:156-170 | One identifier yields its stored suggestion when it exists, is pending and belongs to the document, and nothing otherwise. |
| Suggestions.BulkAccept | convex/suggestionMutations.ts:137-215 | Succeeds exactly when the caller is signed in, the document exists and some given identifier passes the filter; otherwise the first failing check's error is returned. On success the kept suggestions, sorted by descending `startIndex`, are applied to the working text, which is written back. Exactly the kept suggestions become accepted. |
| Suggestions.RepeatedIdAppliedTwice | convex/suggestionMutations.ts:156-197 | Identifiers are not deduplicated. Given a kept suggestion's identifier twice, the bulk accept succeeds and writes the working text with that suggestion applied twice in a row. |
| Suggestions.BulkAccepted | convex/suggestionMutations.ts:182-203 | After the loop, a suggestion is accepted exactly when it was given, pending and of the document; all others are unchanged. |
| Suggestions.BulkOrderEmpty | convex/suggestionMutations.ts:172-174 | Nothing is left to apply exactly when no given identifier passes the filter. |
| Suggestions.BulkOrderIds | convex/suggestionMutations.ts:156-178 | The sorted entries carry the stored suggestions of exactly the given identifiers that pass the filter. |
| Suggestions.BulkOrderIsSorted | convex/suggestionMutations.ts:176-178 | The bulk order is a permutation of the kept suggestions in non-increasing `startIndex`. Suggestions with equal `startIndex` stay in the order their identifiers were given. |
| Suggestions.BulkReject | convex/suggestionMutations.ts:220-248 | Only sign-in is checked. Exactly the given suggestions that are pending and of the document become rejected; all others are unchanged and no document changes. |
| Suggestions.RejectEach | convex/suggestionMutations.ts:233-244 | The loop leaves each suggestion rejected when it was given, pending and of the document, and as it was otherwise. |
| Suggestions.DecidedOnce | convex/suggestionMutations.ts:56-123 | After an accept, a second accept and a reject of the same suggestion both fail with "already processed". |
| Suggestions.RejectedOnce | convex/suggestionMutations.ts:56-128 | After a reject, both accept and reject fail with "already processed". |
| Suggestions.AcceptEditsWorkingText | convex/suggestionMutations.ts:66-90 | For in-range indices, the accepted content is the working text before `startIndex`, then the suggested text (nothing, for a deletion), then the text from `endIndex` on (from `startIndex` on, for an insertion). |
| Suggestions.ApplyInBounds | convex/suggestionMutations.ts:70-82 | The same textbook edit, for any suggestion whose indices lie inside the text. |
| Suggestions.RejectIsBulkRejectOfOne | convex/suggestionMutations.ts:220-248 | Rejecting one pending suggestion is the bulk reject of just that identifier for its document. |
| Suggestions.BulkRejectIdempotent | convex/suggestionMutations.ts:233-244 | Bulk rejecting the same identifiers twice is rejecting them once. |
| Suggestions.BulkAcceptKeepsPrefix | convex/suggestionMutations.ts:176-197 | When every kept suggestion starts at or after `k`, the first `k` characters of the working text survive the bulk accept: each splice only alters text at or after its own `startIndex`. |
| Suggestions.SpliceKeepsPrefix | convex/suggestionMutations.ts:185-197 | One splice keeps every prefix that ends at or before its `startIndex`. |
| Suggestions.BulkAcceptReplacesSpans | convex/suggestionMutations.ts:176-211 | For kept suggestions that fit the working text and are pairwise disjoint, the bulk accept writes the working text with each span replaced, read left to right. The ascending arrangement is a permutation of the kept suggestions. |
| ChangeDetector.PrefixLength | components/ChangeControlEditor.tsx:73-76 | The two texts agree on their first `n` characters, `n <= min(|old|, |new|)`, and they differ at `n` unless one of them ends there. |
| ChangeDetector.SuffixLength | components/ChangeControlEditor.tsx:78-87 | The common suffix never reaches into the first `floor` characters. The texts agree on their last `m` characters and differ just before unless the floor is reached. |
| ChangeDetector.MaximalPrefixIsLongest | components/ChangeControlEditor.tsx:73-76 | Any common prefix that cannot be extended has exactly the length `PrefixLength` computes. |
| ChangeDetector.MaximalSuffixIsLongest | components/ChangeControlEditor.tsx:78-87 | Any common suffix above the floor that cannot be extended has exactly the length `SuffixLength` computes. |
| ChangeDetector.CommonPrefix | components/ChangeControlEditor.tsx:73-76 | The first loop stops at the length of the longest common prefix. |
| ChangeDetector.CommonSuffix | components/ChangeControlEditor.tsx:78-87 | The second loop retreats over the longest common suffix that stays at or above the prefix. |
| ChangeDetector.Detect | components/ChangeControlEditor.tsx:71-96 | `startIndex <= oldEndIndex <= |old|` and `startIndex <= newEndIndex <= |new|`. The texts share `[..startIndex]` and agree after the end indices. `oldText` and `newText` are the middles, and each text is its prefix, its middle and its suffix. |
| ChangeDetector.DetectChanges | components/ChangeControlEditor.tsx:71-96 | The two loops compute exactly the reference diff `Detect`. |
| ChangeDetector.SubmitRequest | components/ChangeControlEditor.tsx:104-129 | Nothing is submitted exactly when the two texts are equal. Otherwise the request carries the changed span in the old text's coordinates, ending at `oldEndIndex`, and its two texts are never both empty. |
| ChangeDetector.ClassificationMeaning | components/ChangeControlEditor.tsx:111-118 | The request is an insertion iff `oldText` is empty, a deletion iff `oldText` is non-empty and `newText` empty, and a replacement otherwise. An insertion lengthens the text and a deletion shortens it. |
| ChangeDetector.SubmitRoundTrip | components/ChangeControlEditor.tsx:89-126 | The submitted splice, applied to the old text the way `approveChange` applies it, gives the new text. |
| ChangeControl.SubmitChange | convex/changeControlChanges.ts:8-44 | Fails exactly when the document is missing. Otherwise it records one pending change with the snapshot `content ?? ""` and leaves everything else alone. |
| ChangeControl.ApproveChange | convex/changeControlChanges.ts:49-97 | Fails with "change not found" or "document not found". Otherwise it splices the change into the document's current `content ?? ""` (not the snapshot) and marks the change approved; nothing else changes. |
| ChangeControl.RejectChange | convex/changeControlChanges.ts:102-118 | Fails exactly when the change is missing. Otherwise only its status changes, to rejected; documents are untouched. |
| ChangeControl.TweakChange | convex/changeControlChanges.ts:123-160 | Fails unless the change exists and is pending. Otherwise each supplied field among `newText`, `startIndex` and `endIndex` is overwritten and every other field is kept; the other changes and the documents are unchanged. |
| ChangeControl.ApproveIgnoresStatus | convex/changeControlChanges.ts:54-93 | Approving does not look at the status: any prior status gives the same result. |
| ChangeControl.TweakNothing | convex/changeControlChanges.ts:140-156 | A tweak that supplies no field changes nothing. |
| ChangeControl.DecidedChangesAreFrozen | convex/changeControlChanges.ts:136-138 | After an approve or a reject, every tweak fails with "not pending". |
| ChangeControl.TweakThenApprove | convex/changeControlChanges.ts:64-156 | After a tweak of a pending change, approval splices the tweaked span and text. |
| ChangeControl.DetectSubmitApproveRoundTrip | convex/changeControlChanges.ts:29-93 | The editor and the server agree. A detected change, submitted and then approved while the document still holds the text the editor saw, leaves the document holding exactly the edited text. |
| InlineSuggestions.DisplayOrder | components/InlineSuggestions.tsx:64 | The view visits a permutation of the groups in ascending `startPos`. |
| InlineSuggestions.Render | components/InlineSuggestions.tsx:46-59 | With no groups the view is the original text as it is. With groups and an empty original it is the "No content" notice. Otherwise it is a list of segments. |
| InlineSuggestions.GroupReadings | components/InlineSuggestions.tsx:76-124 | One group shows the untouched gap before it, then all its deletions, then all its insertions, in stored order. |
| InlineSuggestions.WalkReadings | components/InlineSuggestions.tsx:72-137 | Read as the original (unchanged plus deleted), the walk is the left-to-right rebuild through the groups with each span holding its deleted text. Read as the result (unchanged plus inserted), it is the same rebuild with each span holding its inserted text. |
| InlineSuggestions.DisplayOrderAscends | components/InlineSuggestions.tsx:64 | Well-formed groups that lie pairwise apart come out of the display sort strictly left to right. |
| InlineSuggestions.ShowsWholeOriginal | components/InlineSuggestions.tsx:36-158 | The view shows the COMPLETE original. For in-range, pairwise-apart groups whose deletions are the original text of their spans, the unchanged and deleted segments read back exactly the original, whatever order the groups are stored in. Where the insertions sit does not matter. |
| InlineSuggestions.ShowsWholeOriginalInStoredOrder | components/InlineSuggestions.tsx:36-158 | The same completeness for groups stored left to right, where each group ends at or before the next begins (adjacent groups allowed), and each group's deletions are the original text of its span. |
| InlineSuggestions.ShowsAcceptedResult | components/InlineSuggestions.tsx:106-124 | The view and `accept` agree. For the groups of the position-safety theorem with at most one insertion each, the unchanged and inserted segments read exactly the content that `accept` writes. |
| InlineSuggestions.AcceptRebuildsDisplayOrder | components/InlineSuggestions.tsx:64-124 | For the groups of the position-safety theorem with at most one insertion each, the content `accept` writes is the rebuild through the groups in display order, each span holding its insertions. |
| InlineSuggestions.AscendingGroupsKeepOrder | components/InlineSuggestions.tsx:64 | Groups already strictly ascending are displayed in their stored order. |
| InlineSuggestions.DisplayIsProcessingReversed | components/InlineSuggestions.tsx:64 | For well-formed groups that lie apart, the view's order is exactly the reverse of the order `accept` applies them in. |
| SuggestionActions.RequestOf | convex/suggestionActions.ts:128-141 | A valid element yields a request with the element's type and indices, and `0 <= start <= end <= |content|`. Each text is the element's own when present, and `""` when absent. |
| SuggestionActions.Kept | convex/suggestionActions.ts:114-144 | At most one request per element, all in range. No request is issued exactly when no element is valid. |
| SuggestionActions.KeptAppend | convex/suggestionActions.ts:114-126 | The filter judges each element on its own and keeps the model's order: filtering a concatenation is concatenating the filtered parts. |
| SuggestionActions.KeptOne | convex/suggestionActions.ts:116-143 | A single element yields exactly its request when valid, with missing texts defaulted to "", and nothing otherwise. |
| SuggestionActions.StoreAll | convex/suggestionActions.ts:128-144 | Every request is stored as a pending suggestion under its own fresh identifier, with the request's fields; existing rows are unchanged. |
| SuggestionActions.Generate | convex/suggestionActions.ts:14-159 | The sign-in, API-key and 16000-character checks come first and their errors are not wrapped. A failed call, an unparseable reply, an empty list, or a list with no valid element each fail with their own wrapped error. Success happens exactly when some element is valid, and then one suggestion is stored per valid element, in order. Each stored suggestion is the whole pending record: the element's type, span and texts, plus the prompt, the reply text and the time. |
| SuggestionActions.GeneratedSuggestionsApply | convex/suggestionActions.ts:116-141 | Every stored suggestion lies inside the text it was generated from, and accepting it there performs the textbook edit of its span. |
| Documents.CreateDocument | convex/documents.ts:59-77 | A new draft with the two given texts, last edited by the given user, with `createdAt == updatedAt`; no owner and no accepted content; existing rows unchanged. |
| Documents.UpdateContent | convex/documents.ts:82-101 | Fails on a missing document. Otherwise `currentContent` is set, the status becomes pending review and `originalContent` is kept; other documents are unchanged. |
| Documents.ApproveChange | convex/documents.ts:106-124 | Fails on a missing document. Otherwise `originalContent := currentContent` and the status becomes approved. |
| Documents.RejectChange | convex/documents.ts:129-147 | Fails on a missing document. Otherwise `currentContent := originalContent` and the status becomes rejected. |
| Documents.DecisionsSettle | convex/documents.ts:93-144 | After either approve or reject, `originalContent == currentContent`. An update leaves the document settled exactly when it writes the reviewed text. |
| Documents.UpdateThenReject | convex/documents.ts:93-144 | Rejecting an edit gives back the reviewed text, whatever was edited. |
| Documents.UpdateThenApprove | convex/documents.ts:93-121 | Approving an edit makes the edited text the reviewed text. |
| Documents.SettledDecisionsAgree | convex/documents.ts:116-144 | On a settled document the two decisions differ only in the status they record. |
| Documents.CreateThenReview | convex/documents.ts:67-144 | A fresh document is settled exactly when its two texts are equal. Approving it keeps the current text, and rejecting it restores the original. |
| Todos.Create | convex/todos.ts:22-43 | Succeeds exactly when signed in. The new todo is pending, has no completion time and is owned by the caller's token identifier. |
| Todos.ToggleComplete | convex/todos.ts:45-66 | Fails when signed out, or when the todo is missing or someone else's. Otherwise the status flips and `completedAt` is set exactly when the new status is completed; no other field or todo changes. |
| Todos.Remove | convex/todos.ts:68-85 | The same guard. On success exactly that todo is gone and the rest are unchanged. |
| Todos.Update | convex/todos.ts:87-109 | The same guard. On success only the title and the description change. |
| Todos.HandlersKeepConsistency | convex/todos.ts:33-107 | Every handler keeps every todo's completion time present exactly when it is completed. |
| Todos.ToggleTwice | convex/todos.ts:60-64 | Toggling twice restores the status, and for a pending todo without a completion time, the whole table. |
| Todos.OthersCannotTouch | convex/todos.ts:55-102 | Another user's toggle, remove and update all fail with "not found or unauthorized". |
| Todos.CreateThenRemove | convex/todos.ts:33-83 | A created todo is the caller's; removing it gives back the table as it was, after which toggling it fails. |

## Left out

- Queries are left out because they only read: `getPending`, `getLatestPending`, `getChangesForDocument` and the document listings. So are `deleteDocument`, and `createInternal`, which is `create` without the checks.
- Persistence is left out: indexes, identifier allocation beyond "a fresh identifier is passed in", and the atomicity of concurrent Convex mutations.
- The language-model call, the system prompt and the regular expression that extracts a JSON array are left out. The call's outcome is the `Reply` parameter: it failed, its text was unparseable, or it parsed into elements.
- A JSON element that is `null` makes `generateSuggestions` throw a `TypeError`, which comes back wrapped. This path is not modelled.
- A `suggestedText` or `originalText` of a non-string JSON type would make `createSuggestion`'s argument validation throw. The model reads a non-string field as absent.
- Failures of the individual `createSuggestion` calls are not modelled.
- The diff (`diff-match-patch`) and the code that builds change groups from it are not part of this model: change groups are inputs. The position-safety lemmas therefore state the group shape they need as the `WellFormed` hypothesis: deletions tile `[startPos, endPos)` and every insertion sits at `startPos`.
- Positions are integers. JSON numbers that are not integers are not modelled.
- Text is a sequence of characters rather than UTF-16 code units, so the 16000-character limit counts characters.
- The in-place side effect of `Array.prototype.sort` on a group's stored deletions and insertions is not modelled, since that array is not written back.
- Rendering, styling and logging are not modelled. This includes the length check at components/InlineSuggestions.tsx:148-156, which only logs.
- Document fields that no modelled handler reads or writes are not modelled.
- InlineSuggestions.ShowsAcceptedResult: holds only for groups with at most one insertion each. The applier splices insertions that share a position one after another at that position, so the insertion stored last ends up first. The view shows them in stored order. Which shape real groups have depends on the group builder, which is not part of this model.
- ChangeGroups.ApplyChangeGroupsRebuilds: stated only for well-formed, in-range, pairwise-apart groups. For other groups the clamped `substring` cuts still run, but no span-replacement property is claimed.
- Suggestions.BulkAcceptReplacesSpans: stated only for kept suggestions that fit the working text and are pairwise disjoint. Overlapping suggestions are applied as the code applies them, but no span property is claimed.
- Text.Splice: its contract speaks of non-negative in-range indices. The `slice` clamping of other indices is modelled in its body and in `Text.SliceIndex`.
