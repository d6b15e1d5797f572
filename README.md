# GitLab–Jira automation: a Dafny model of the webhook handlers' core

The service receives GitLab webhook events and acts on them in three ways:

- **JiraUpdate** (`webhooks/app/jira_update.py`) keeps Jira issues in step with merge requests and pushes:
  - an opened or un-drafted merge request moves its issues from *In Progress* to review, with the request's entry written into the issue's *Resolution Notes* field;
  - other changes only rewrite that entry;
  - a merged or closed request registers its issues in a list of deferred transitions, which `poll` sweeps: an issue whose merge requests are all done moves on to QA, one that still has open requests is checked again five seconds later, at most ten times;
  - a push names the issues it concerns by its ref, or else by its commits.
- **ReviewChecklist** (`webhooks/app/review_checklist.py`) posts a checklist note on a newly opened merge request.
- **ReviewerSuggestion** (`webhooks/app/reviewer_suggestion.py`) posts a note naming the code owners of the changed files.
- **utils** (`webhooks/app/utils.py`) holds the text functions:
  - issue-key extraction;
  - title and description clean-up;
  - reading, merging and writing the Resolution Notes text, a run of `[id]: text` entries.

## How the model is organised

| file | module | what it holds |
|---|---|---|
| `wrappers.dfy` | `Wrappers` | `Option` |
| `issue_keys.dfy` | `IssueKeys` | the key regular expressions of utils.py, as scanners over the text, with `sanitize_description` and `sanitize_title` |
| `resolution_notes.dfy` | `ResolutionNotes` | splitting, merging and creating Resolution Notes, with the round trip between writing entries and reading them back |
| `deferred.dfy` | `DeferredTransitions` | the `JiraDeferredTransition` class, a value-level specification of one check and of one sweep, and registration |
| `jira_update.dfy` | `JiraUpdates` | the `JiraUpdate` class: its list of entries, registration on close or merge, and `poll` |
| `jira_decisions.dfy` | `JiraDecisions` | what a merge request event asks of each issue, the field maps sent to Jira, the transition-id lookup, and the keys of a push |
| `events.dfy` | `MergeRequestEvents` | the event fields and configuration both note handlers read, and `load_from_remote_file` |
| `review_checklist.dfy` | `ReviewChecklists` | `_add_checklist` and `process` |
| `reviewer_suggestion.dfy` | `ReviewerSuggestions` | `_add_reviewer_suggestion` and `process` |

**Code that updates state in place is imperative Dafny:**

- Deferred-transition entries are objects, because the source mutates them in place. The registry keeps them in a `seq` field that `poll` reassigns.
- Every method says what it changes and how, in terms of the value-level functions `Register`, `Survivors`, `Attempts` and `AdvanceAll`.
- The loops of the source are `while`/`for` loops with invariants. These are:
  - the registration loop;
  - the comprehension in `poll`;
  - the update loop over notes entries;
  - the commit loop of a push;
  - the changed-files and owners loops.

**Regular expressions become scanners:**

- Each regular expression is written as a recursive scanner over the text.
- Lemmas tie each scanner to a declarative reading of its pattern, for example "a string is extracted exactly when it is the key starting at the text's start or after a prefix character".

**The outside world becomes parameters:**

- The wall clock is an integer `now`.
- Jira's answer about an issue is a `Probe`.
- Remote file reads are a sequence of per-ref outcomes.
- `CodeOwners.of` and the Jinja rendering are function parameters.

## Model

| member | source | states |
|---|---|---|
| `IssueKeys.ExtractIssueKeysExactly` | webhooks/app/utils.py:42-43 | a string is extracted exactly when it is the longest `[a-zA-Z]+-\d+` match starting at the text's start or right after `/`, `'`, `"`, `[` or whitespace |
| `IssueKeys.ExtractedAreKeys` | webhooks/app/utils.py:43 | every extracted key is letters, a dash and digits |
| `IssueKeys.ScanKeysSound` | webhooks/app/utils.py:43 | every key the left-to-right scan reports starts at a position the pattern accepts and is the match there |
| `IssueKeys.ScanKeysComplete` | webhooks/app/utils.py:43 | every position the pattern accepts contributes its match to the scan, even when an earlier match ends right before it |
| `IssueKeys.KeyLenOfKey` | webhooks/app/utils.py:43 | a whole key not followed by a further digit is matched exactly, with no more and no less |
| `IssueKeys.KeyLenIsKey` | webhooks/app/utils.py:43 | what the key pattern matches is letters, a dash and digits |
| `IssueKeys.KeyHasNoPrefixChar` | webhooks/app/utils.py:43 | a match holds no character that may precede a key, so no second key can start inside it |
| `IssueKeys.UnbracketKey` | webhooks/app/utils.py:45-47 | `[KEY]` is replaced by `KEY` and the scan resumes after the closing bracket |
| `KeyRewrites.UnbracketEvery` | webhooks/app/utils.py:45-47 | over the whole text, every `[KEY]` becomes `KEY`, with the text before it rewritten on its own and the scan resuming after `]` |
| `KeyRewrites.UnbracketPlain` | webhooks/app/utils.py:45-47 | where no `[KEY]` starts, the text is copied unchanged |
| `KeyRewrites.UnbracketSplit` | webhooks/app/utils.py:45-47 | removing brackets from a text is removing them from a prefix and from the rest, when no `[KEY]` straddles the cut |
| `IssueKeys.UnbracketDeletesBrackets` | webhooks/app/utils.py:45-47 | removing brackets only deletes `[` and `]` characters: with brackets struck from both, input and output are equal |
| `IssueKeys.UnbracketNoBracket` | webhooks/app/utils.py:45-47 | a text without `[` is returned unchanged |
| `IssueKeys.UnbracketKeepsNoDoubleNewline` | webhooks/app/utils.py:53-55 | removing brackets after collapsing newlines never brings two newlines together |
| `IssueKeys.CollapseNewlines` | webhooks/app/utils.py:53 | the result never holds two adjacent newlines and starts with the input's first character |
| `IssueKeys.CollapseDeletesNewlines` | webhooks/app/utils.py:53 | collapsing only deletes newlines: with newlines struck from both, input and output are equal |
| `IssueKeys.CollapseNewlinesKeeps` | webhooks/app/utils.py:53 | a text without two adjacent newlines is returned unchanged |
| `IssueKeys.DropClosesKey` | webhooks/app/utils.py:51 | `Closes KEY` is deleted and the scan resumes after the key |
| `KeyRewrites.DropClosesEvery` | webhooks/app/utils.py:51 | over the whole text, every `Closes KEY` is deleted, with the text before it rewritten on its own and the scan resuming after the key |
| `KeyRewrites.DropClosesPlain` | webhooks/app/utils.py:51 | where no `Closes KEY` starts, the text is copied unchanged: only those spans are deleted |
| `KeyRewrites.DropClosesSplit` | webhooks/app/utils.py:51 | the deletion over a text is the deletion over a prefix and over the rest, when no `Closes KEY` straddles the cut |
| `IssueKeys.SanitizeDescription` | webhooks/app/utils.py:49-55 | a sanitized description never holds two adjacent newlines; what each of its three steps does to the text is stated by the `DropCloses`, `Collapse` and `Unbracket` lemmas |
| `IssueKeys.DropResolveKey` | webhooks/app/utils.py:57-59 | `Resolve KEY` in a title becomes `KEY` and the scan resumes after the key |
| `KeyRewrites.DropResolveEvery` | webhooks/app/utils.py:59 | over the whole title, every `Resolve KEY` becomes `KEY`, with the text before it rewritten on its own and the scan resuming after the key |
| `KeyRewrites.DropResolvePlain` | webhooks/app/utils.py:59 | where no `Resolve KEY` starts, the title is copied unchanged: only the `Resolve ` prefixes are removed |
| `KeyRewrites.SanitizeTitleKeeps` | webhooks/app/utils.py:57-60 | sanitize_title returns a title holding no `Resolve KEY` and no `[KEY]` unchanged; for the other titles its two steps are stated over the whole title by `DropResolveEvery` and `DropResolvePlain`, then `UnbracketEvery` and `UnbracketPlain` |
| `KeyRewrites.DropResolveSplit` | webhooks/app/utils.py:59 | the rewrite of a title is the rewrite of a prefix and of the rest, when no `Resolve KEY` straddles the cut |
| `ResolutionNotes.ScanWellFormed` | webhooks/app/utils.py:3-5 | every entry read has a digit id, and a text that holds no `\n[` and does not start with whitespace |
| `ResolutionNotes.ScanRenderAll` | webhooks/app/utils.py:3-5 | well-formed entries written as `[id]: text\n` read back in order; the last text gains the closing newline |
| `ResolutionNotes.SplitRenderAll` | webhooks/app/utils.py:3-5 | the round trip of split after writing, for a whole notes text |
| `ResolutionNotes.ScanRenderedLast` | webhooks/app/utils.py:4 | the lazy text of the last entry runs to the end of the notes and so keeps its newline |
| `ResolutionNotes.UpdateResolutionNotesText` | webhooks/app/utils.py:7-24 | absent or empty notes give the new notes; notes with no readable entry give None; otherwise the entries merged with the new notes |
| `ResolutionNotes.MergeEntries` | webhooks/app/utils.py:12-21 | the loop writes every entry back, puts the new notes in place of the entry with the same id, and appends them when no entry has it |
| `ResolutionNotes.MergeNotesAppends` | webhooks/app/utils.py:14-21 | with no entry of this merge request, every entry is kept in order and the new notes come last |
| `ResolutionNotes.MergeNotesReplaces` | webhooks/app/utils.py:14-19 | the entry of this merge request is replaced where it stands and the others are kept in order |
| `ResolutionNotes.MergeNotesReplacesBoth` | webhooks/app/utils.py:14-21 | with two entries of this merge request, each is replaced where it stands, so the new notes appear twice and are not appended |
| `ResolutionNotes.UpdateAppendsEntry` | webhooks/app/utils.py:7-24 | after an update with a new id, the notes read back as the old entries followed by the new one |
| `ResolutionNotes.UpdateReplacesEntry` | webhooks/app/utils.py:7-24 | after an update with an existing id, the notes read back with that entry replaced in its place |
| `ResolutionNotes.StateSymbol` | webhooks/app/utils.py:35-40 | `(/)` exactly when merged, `(x)` exactly when closed but not merged, `(?)` exactly otherwise |
| `ResolutionNotes.CreateNotesShape` | webhooks/app/utils.py:26-33 | an entry opens with its `[id]: ` header, the Jira link of title and url, and the state symbol; the description and a blank line follow exactly when the request is not closed and the description is non-empty |
| `ResolutionNotes.CreatedRender` | webhooks/app/utils.py:26-33 | a created entry is the entry of its id written out; its text opens with the Jira link, and holds the description and a newline exactly when one is written |
| `ResolutionNotes.CreatedEntry` | webhooks/app/utils.py:26-33 | with a digit id, a title and url holding no `\n[`, and a description that is empty, or unwritten because the request is closed, or holds no `\n[` and does not start with `[`, a created entry is one well-formed entry written out. Descriptions that start with `[` or hold `\n[` are excluded: they are the finding below |
| `ResolutionNotes.CreateNotesReadsBack` | webhooks/app/utils.py:26-33 | for the same inputs, a created entry splits back into exactly one entry with its id |
| `ResolutionNotes.CreatedDescriptionCutShort` | webhooks/app/utils.py:3-5 | a description `[d]` is lost: the created notes split into an entry without it, and a later update of another request drops it |
| `ResolutionNotes.CreateNotesReadsBackWhole` | webhooks/app/utils.py:26-33 | with texts ending only at the next `[digits]:` header, any created entry with no such header inside reads back whole, description included |
| `ResolutionNotes.CreatedDescriptionKept` | webhooks/app/utils.py:3-5 | with texts ending only at the next header, the description `[d]` is kept |
| `MergeRequestEvents.LoadRemote` | webhooks/app/utils.py:70-76 | the first ref that can be read wins, even when the file is empty; the fallback is used only when no ref can be read |
| `DeferredTransitions.DeferredTransition.constructor` | webhooks/app/jira_update.py:9-11 | a new entry is on its first try, due one interval from now |
| `DeferredTransitions.DeferredTransition.Reset` | webhooks/app/jira_update.py:13-15 | back to the first try, due one interval from now, with the key kept |
| `DeferredTransitions.DeferredTransition.Update` | webhooks/app/jira_update.py:17-19 | one more try, due one interval from now, with the key kept |
| `DeferredTransitions.Evaluate` | webhooks/app/jira_update.py:95-129 | an entry not yet due is kept untouched; a due entry raises exactly when the development-status search fails; it is dropped when the issue is missing, when all its merge requests are done, or when they are still open and its tries are used up; a due entry whose merge requests are still open and whose tries are not used up is kept, on its next try and due one interval from now, and no kept entry goes past ten tries; the final transition is attempted exactly for a due entry whose merge requests are all done while the issue is in review |
| `DeferredTransitions.RaiseIndex` | webhooks/app/jira_update.py:101-107 | the first entry whose check raises out of the sweep, or none |
| `DeferredTransitions.RaiseIndexUnique` | webhooks/app/jira_update.py:101-107 | the first raising check is the only index with no raise before it that raises |
| `DeferredTransitions.AdvanceAll` | webhooks/app/jira_update.py:279-280 | each entry as its own check leaves it |
| `DeferredTransitions.SurvivorsExactly` | webhooks/app/jira_update.py:280 | a sweep keeps exactly the entries whose check keeps them, in their order, each in the state its check left it in |
| `DeferredTransitions.NotDueSurvives` | webhooks/app/jira_update.py:96-97 | an entry that is not due survives a sweep untouched |
| `DeferredTransitions.AttemptsExactly` | webhooks/app/jira_update.py:107-121 | a final transition is asked for an issue exactly when its entry is due and Jira reports all its merge requests done while it is in review |
| `DeferredTransitions.SurvivorsUniqueKeys` | webhooks/app/jira_update.py:280 | a sweep never duplicates an issue key |
| `DeferredTransitions.SurvivorsTriesInRange` | webhooks/app/jira_update.py:123-127 | a sweep keeps every try counter between 1 and 10 |
| `DeferredTransitions.AdvancedValid` | webhooks/app/jira_update.py:280 | a sweep cut short by a raise leaves keys unique and counters in range |
| `DeferredTransitions.ChecksUntilDroppedCount` | webhooks/app/jira_update.py:123-127 | an entry on try `t` whose merge requests stay open is checked `11 - t` more times |
| `DeferredTransitions.FreshEntryCheckedTenTimes` | webhooks/app/jira_update.py:123-127 | a new entry whose merge requests never close is checked exactly ten times |
| `DeferredTransitions.FirstWithKey` | webhooks/app/jira_update.py:87-92 | the first entry with the key: no earlier entry has it |
| `DeferredTransitions.RegisterStep` | webhooks/app/jira_update.py:86-93 | registering one more key resets its entry in place or appends a fresh one, and keeps keys unique and counters in range |
| `DeferredTransitions.ResetValid` | webhooks/app/jira_update.py:92 | resetting an entry keeps keys unique and counters in range |
| `DeferredTransitions.AppendFreshValid` | webhooks/app/jira_update.py:88-90 | appending an entry for a new key keeps keys unique and counters in range |
| `JiraUpdates.EligibleKeys` | webhooks/app/jira_update.py:64-84 | a key is registered exactly when the action is close or merge and the key is an issue key of the branch name or the title that starts with an enabled project key, a dash and a digit |
| `JiraUpdates.EligibleKeysAreIssueKeys` | webhooks/app/jira_update.py:74-80 | every registered key is letters, a dash and digits |
| `JiraUpdates.JiraUpdate.constructor` | webhooks/app/jira_update.py:42-52 | an updater starts with an empty deferred list |
| `JiraUpdates.JiraUpdate.FindKey` | webhooks/app/jira_update.py:87-88 | the index of the first entry with the key, or the list length exactly when no entry has it |
| `JiraUpdates.JiraUpdate.ResetAt` | webhooks/app/jira_update.py:92 | resets one entry in place; no other entry changes |
| `JiraUpdates.JiraUpdate.AppendEntry` | webhooks/app/jira_update.py:90 | appends a fresh entry for a key that had none |
| `JiraUpdates.JiraUpdate.RegisterKey` | webhooks/app/jira_update.py:86-93 | one iteration of registration; the list's states become `Register` of the old ones |
| `JiraUpdates.JiraUpdate.RegisterKeys` | webhooks/app/jira_update.py:86-93 | in any iteration order, entries of the keys are reset where they stand, others are unchanged, and one fresh entry is appended per new key |
| `JiraUpdates.JiraUpdate.TransitionIssueWhenDone` | webhooks/app/jira_update.py:64-93 | the list afterwards is the old list with every eligible key registered; keys stay unique |
| `JiraUpdates.ProcessDoneMergeRequestIssue` | webhooks/app/jira_update.py:95-129 | removes, attempts and raises exactly as `Evaluate` says, and leaves the entry in the state `Evaluate` gives |
| `JiraUpdates.CheckAt` | webhooks/app/jira_update.py:280 | checks one entry of the list; no other entry changes |
| `JiraUpdates.Sweep` | webhooks/app/jira_update.py:280 | the comprehension: the entries checked before a raise are advanced, the kept ones are the survivors, and attempts are those of the checked entries |
| `JiraUpdates.JiraUpdate.Poll` | webhooks/app/jira_update.py:279-280 | without a raise the list becomes the survivors; with one the list is not reassigned but the entries checked before it keep their updates |
| `JiraDecisions.EventFlags` | webhooks/app/jira_update.py:131-153 | created, merged and closed follow the action; reading the draft change of an update raises exactly when that change is null |
| `JiraDecisions.OpenPlan` | webhooks/app/jira_update.py:143-187 | an opened request goes to review unless it is a draft, and then only updates notes |
| `JiraDecisions.MergeOrClosePlan` | webhooks/app/jira_update.py:150-187 | a merge or close updates notes, or asks for review when the event also changes the draft flag |
| `JiraDecisions.UpdatePlan` | webhooks/app/jira_update.py:139-187 | an update does nothing without a draft, description or title change; it asks for review when it clears the draft flag, and otherwise updates notes for a text change |
| `JiraDecisions.OtherActionPlan` | webhooks/app/jira_update.py:139-187 | any other action behaves like an update whose draft flag reads false |
| `JiraDecisions.InReviewFields` | webhooks/app/jira_update.py:196-202 | only an issue in progress is transitioned; the notes field carries the new notes and the dev resolution field, when configured, carries `Done` |
| `JiraDecisions.NotesUpdateFields` | webhooks/app/jira_update.py:189-194 | only an issue in review is updated, and only its notes field |
| `JiraDecisions.TransitionId` | webhooks/app/jira_update.py:207-208 | the id of the first transition with the name; none, where the source raises, exactly when no transition has it |
| `JiraDecisions.IssueRequestGated` | webhooks/app/jira_update.py:176-212 | a transition is asked only under the review plan for an issue in progress, and fails exactly when no transition has the name; a field update is asked only under the notes plan for an issue in review |
| `JiraDecisions.PushIssueKeys` | webhooks/app/jira_update.py:220-226 | the keys of the ref, and only when it has none, the keys of every commit's message and title |
| `JiraDecisions.CommitKeysExactly` | webhooks/app/jira_update.py:224-226 | a key comes from the commits exactly when some commit's message or title yields it |
| `JiraDecisions.PushKeysAreIssueKeys` | webhooks/app/jira_update.py:220-226 | every key of a push is letters, a dash and digits |
| `ReviewChecklists.AddChecklist` | webhooks/app/review_checklist.py:20-50 | a note is posted only for a selected event, and its body is the loaded, non-empty checklist |
| `ReviewChecklists.Process` | webhooks/app/review_checklist.py:52-59 | only merge request events reach `_add_checklist` |
| `ReviewChecklists.PostsLoadedChecklist` | webhooks/app/review_checklist.py:20-59 | a note is posted exactly for a selected merge request event whose checklist loads and is non-empty |
| `ReviewChecklists.RemoteChecklistPreferred` | webhooks/app/review_checklist.py:36-45 | a checklist readable at some ref wins over the local one, and an empty one posts nothing |
| `ReviewChecklists.LocalChecklistFallback` | webhooks/app/review_checklist.py:36-45 | with no readable remote checklist the local one decides |
| `ReviewerSuggestions.CollectChangedFiles` | webhooks/app/reviewer_suggestion.py:45-49 | both paths of every change, and none when the change list is absent |
| `ReviewerSuggestions.ChangedPathsExactly` | webhooks/app/reviewer_suggestion.py:45-49 | a path is changed exactly when some change names it before or after |
| `ReviewerSuggestions.CollectOwners` | webhooks/app/reviewer_suggestion.py:63-66 | the union of the owner names of every changed file, in any iteration order |
| `ReviewerSuggestions.OwnerNamesExactly` | webhooks/app/reviewer_suggestion.py:63-66 | an owner is collected exactly when it owns some changed file |
| `ReviewerSuggestions.Author` | webhooks/app/reviewer_suggestion.py:68 | the author is `@` followed by the username |
| `ReviewerSuggestions.SuggestionData` | webhooks/app/reviewer_suggestion.py:68-92 | the owners without the author, and "author is the only owner" exactly when the owners are just the author |
| `ReviewerSuggestions.AddReviewerSuggestion` | webhooks/app/reviewer_suggestion.py:27-95 | a note exactly for a selected event with changed files, a CODEOWNERS file and a non-empty template; its body is the template rendered with the owners other than the author |
| `ReviewerSuggestions.Process` | webhooks/app/reviewer_suggestion.py:97-103 | the same, and only for merge request events |
| `ReviewerSuggestions.SuggestedOwnersOwnChangedFiles` | webhooks/app/reviewer_suggestion.py:45-72 | a name is suggested exactly when it is not the author's and it owns a path that some change names before or after |

## Left out

- Flask, the event worker thread and the queue between them (`gitlab_webhooks.py`, `web_event_worker.py`): they are concurrency and I/O.
- Logging: nothing the handlers decide depends on it.
- Calls to Jira and GitLab are inputs, not calls:
  - the issue lookup, the development-status search and the issue status become the `Probe` of a deferred check;
  - a transition list becomes a `seq<Transition>`;
  - remote file reads become per-ref outcomes;
  - `CodeOwners.of` and the Jinja rendering become function parameters;
  - posting a note becomes returning its body.
- `time.time()` is an integer `now`, taken once per call. Floating-point seconds are not modelled.
- `\s` and `\d` are read as their ASCII classes. Python's Unicode classes are wider.
- Set iteration order: the registration loop and the owners loop are proved for every order.
- Missing event fields and missing configuration keys raise `KeyError` in the source. The model treats every field read with `[...]` as present; only fields read with `.get` may be missing, null or present. The exceptions are `changes`, `ref` and `commits`: a null value for any of them raises in the source, and is not modelled.
- `self._jira_fields`, the map from field names to Jira field ids: requests are stated with field names.
- The `enabled-project-keys` pattern is read as a plain alternation of literal keys. Regular-expression metacharacters in a configured key, and the empty list (whose pattern `()-\d+` also matches a key beginning with `-`), are not modelled.
- `JiraDecisions.IssueRequest`: the per-issue loops of `_transition_issues_in_review_or_update` and `_transition_issues_in_progress_on_push` are modelled for one issue at a time, as the request it leads to. Left out of them:
  - the iteration over the issue keys, and the order of the requests sent;
  - the Jira call that looks an issue up, and the skip of an issue that is not found: the issue's status is an input;
  - on push, the user search and `assign_issue`;
  - on push, the start-progress transition of issues in an open status.
- `DeferredTransitions.Evaluate`: a final transition that raises is caught and the entry is dropped, as for a transition that succeeds. The model records only that the transition was attempted.
- `JiraDecisions.Commit`: a commit with a null message or title reaches `re.findall` with None and raises. The model reads a missing message or title as empty, as `.get('message', '')` does, and does not model null.
- `ReviewerSuggestions.AddReviewerSuggestion`: a `changes` entry without `old_path` or `new_path` raises in the source and is not modelled.
  - A CODEOWNERS file at neither ref makes `CodeOwners(None)` raise, which `process` catches; the model returns no note.
- `ResolutionNotes.UpdateAppendsEntry` and `ResolutionNotes.UpdateReplacesEntry`: their round trip holds for notes whose entries all have a text, and for new notes that are one well-formed entry.
  - The last entry read back keeps its closing newline, so each rewrite of the notes adds one newline to the last entry. The lemmas state this exactly rather than claim an identity.
- `IssueKeys.SanitizeDescription`: its contract states the absence of double newlines. Its three steps are stated separately, rather than as one formula: by `DropClosesEvery` and `DropClosesPlain`, by `CollapseDeletesNewlines`, and by `UnbracketEvery` and `UnbracketPlain`.
- `IssueKeys.SanitizeTitle`: it has no contract of its own. `SanitizeTitleKeeps` states when it changes nothing, and `DropResolveEvery`, `DropResolvePlain`, `UnbracketEvery` and `UnbracketPlain` state its two steps over the whole title.
- `load_from_local_file` is a file read done at start-up. Its outcome is an `Option` input.
- GitLab calls can raise: `projects.get`, `mergerequests.get`, `mr.changes()`, `notes.create` and the remote file reads. Each handler's `process` catches the exception and logs it, so no note results. The model treats these calls as succeeding, apart from remote reads, whose failure per ref is an input.
- `ResolutionNotes.MergeNotesReplaces` asks for a single entry with the id. With several, the source replaces each of them; `MergeNotesReplacesBoth` states this for two, and `MergeNotes` itself for any number.
- `ResolutionNotes.CreatedEntry` and `ResolutionNotes.CreateNotesReadsBack` exclude descriptions that start with `[` or hold `\n[`. For those the split as written loses the description, as the finding below shows, and `CreateNotesReadsBackWhole` states the round trip for the corrected split.
- `ResolutionNotes.UpdateResolutionNotesText` keeps the split as written, with texts cut at any line opening with `[`. The corrected split of the finding below is stated beside it and not used by the update.

## Findings

| source | as written | input that shows it | evidently intended | confidence | as-written member | corrected member |
|---|---|---|---|---|---|---|
| webhooks/app/utils.py:3-5 | an entry's text stops before any newline followed by `[`, so a description line that opens with `[` ends the entry and the rest is not read | merge request 5, open, titled `t` at `u`, with description `[d]`: the notes `[5]: [t|u] (?)\n[d]\n\n` split into one entry with text `[t|u] (?)`, and updating them for request 6 writes `[5]: [t|u] (?)\n` before the new notes, so the description is lost | a text runs to the next `[digits]:` header | not executed | `ResolutionNotes.CreatedDescriptionCutShort` | `ResolutionNotes.CreateNotesReadsBackWhole` |
