/**
 * The decisions JiraUpdate of webhooks/app/jira_update.py takes on a
 * merge request or push event before it calls Jira: whether to move the
 * issues to review or only to update their resolution notes, which fields
 * go with each request, which transition id a transition name stands for,
 * and which issue keys a push concerns.
 */
module JiraDecisions {
  import opened Wrappers
  import IssueKeys

  // ---------------------------------------------------------------------
  // Event fields (webhooks/app/jira_update.py:131-156)
  // ---------------------------------------------------------------------

  /** A JSON member: missing, present as null, or present with a value. */
  datatype Field<T> = Missing | Null | Value(value: T)

  /** Python truthiness of an optional flag read with a default of False. */
  predicate Truthy(f: Field<bool>) {
    f.Value? && f.value
  }

  /** Python's `x != None` for `dict.get`, where a missing member reads as None. */
  predicate NotNone<T>(f: Field<T>) {
    f.Value?
  }

  /** The `changes` object of a merge request event, as far as it is read. */
  datatype DraftChange = DraftChange(current: Field<bool>)
  datatype Changes = Changes(draft: Field<DraftChange>, description: Field<string>, title: Field<string>)

  /** The flags `_transition_issues_in_review_or_update` derives from an event. */
  datatype Flags = Flags(created: bool, draft: bool, closed: bool, merged: bool,
                         draftUpdated: bool, descriptionUpdated: bool)

  /**
   * The flags of an event with action `action`, `draftAttribute` for
   * `object_attributes.draft` and `changes` for its changes.  None: reading
   * `changes.draft.current` of an update whose draft change is null raises.
   */
  function EventFlags(action: string, draftAttribute: Field<bool>, changes: Changes): (r: Option<Flags>)
    ensures r.None? <==> action == "update" && changes.draft.Null?
    ensures r.Some? ==> (r.value.created <==> action == "open") && (r.value.merged <==> action == "merge") &&
                        (r.value.closed <==> action == "close")
  {
    var draftUpdated := NotNone(changes.draft);
    var descriptionUpdated := NotNone(changes.description) || NotNone(changes.title);
    if action == "open" then
      Some(Flags(true, Truthy(draftAttribute), false, false, true, true))
    else if action == "update" then
      match changes.draft
      case Null => None
      case Missing => Some(Flags(false, false, false, false, draftUpdated, descriptionUpdated))
      case Value(d) => Some(Flags(false, Truthy(d.current), false, false, draftUpdated, descriptionUpdated))
    else if action == "merge" then
      Some(Flags(false, false, false, true, draftUpdated, descriptionUpdated))
    else if action == "close" then
      Some(Flags(false, false, true, false, draftUpdated, descriptionUpdated))
    else
      Some(Flags(false, false, false, false, draftUpdated, descriptionUpdated))
  }

  /** What the event asks of every issue it names. */
  datatype Plan =
    | NoRelevantChange   // nothing is looked up
    | ToReview           // move issues in progress to review, with the new notes
    | NotesOnly          // update the notes of issues in review
    | NoUpdate           // issues are looked up, but nothing is asked of them

  predicate TransitionToReview(f: Flags) {
    (f.created || f.draftUpdated) && !f.draft
  }

  predicate UpdateOnly(f: Flags) {
    f.created || f.closed || f.merged || f.descriptionUpdated
  }

  /** The plan of webhooks/app/jira_update.py:153-187: the review transition wins over the notes update. */
  function PlanOf(f: Flags): Plan {
    if !(f.created || f.draftUpdated || f.descriptionUpdated || f.closed || f.merged) then NoRelevantChange
    else if TransitionToReview(f) then ToReview
    else if UpdateOnly(f) then NotesOnly
    else NoUpdate
  }

  /** An opened merge request goes to review unless it is a draft, and then only updates notes. */
  lemma OpenPlan(draftAttribute: Field<bool>, changes: Changes)
    ensures EventFlags("open", draftAttribute, changes).Some?
    ensures PlanOf(EventFlags("open", draftAttribute, changes).value) ==
            if Truthy(draftAttribute) then NotesOnly else ToReview
  {
  }

  /**
   * A merge or a close updates the notes; it asks for the review transition
   * instead when the event also carries a draft change.
   */
  lemma MergeOrClosePlan(action: string, draftAttribute: Field<bool>, changes: Changes)
    requires action == "merge" || action == "close"
    ensures EventFlags(action, draftAttribute, changes).Some?
    ensures PlanOf(EventFlags(action, draftAttribute, changes).value) ==
            if changes.draft.Value? then ToReview else NotesOnly
  {
  }

  /**
   * An update: nothing without a draft, description or title change; the
   * review transition when the draft flag is changed to false; otherwise a
   * notes update when the description or title changed.
   */
  lemma UpdatePlan(draftAttribute: Field<bool>, changes: Changes)
    requires !changes.draft.Null?
    ensures EventFlags("update", draftAttribute, changes).Some?
    ensures var p := PlanOf(EventFlags("update", draftAttribute, changes).value);
      var textChanged := changes.description.Value? || changes.title.Value?;
      (p == NoRelevantChange <==> changes.draft.Missing? && !textChanged) &&
      (p == ToReview <==> changes.draft.Value? && !Truthy(changes.draft.value.current)) &&
      (p == NotesOnly <==> textChanged && !(changes.draft.Value? && !Truthy(changes.draft.value.current))) &&
      (p == NoUpdate <==> changes.draft.Value? && Truthy(changes.draft.value.current) && !textChanged)
  {
  }

  /** Any other action behaves like an update whose draft flag reads false. */
  lemma OtherActionPlan(action: string, draftAttribute: Field<bool>, changes: Changes)
    requires action !in {"open", "update", "merge", "close"}
    ensures EventFlags(action, draftAttribute, changes).Some?
    ensures var p := PlanOf(EventFlags(action, draftAttribute, changes).value);
      p == if changes.draft.Value? then ToReview
           else if changes.description.Value? || changes.title.Value? then NotesOnly
           else NoRelevantChange
  {
  }

  // ---------------------------------------------------------------------
  // Status-gated requests (webhooks/app/jira_update.py:189-212)
  // ---------------------------------------------------------------------

  /** The configured statuses, transition names and field names. */
  datatype Config = Config(
    inProgressStatuses: seq<string>,
    inReviewStatuses: seq<string>,
    resolutionNotesField: string,
    devResolutionField: string,      // empty: not configured
    startReviewTransition: string)

  /** A value put into a Jira field: the notes text (maybe None), or a choice such as {'value': 'Done'}. */
  datatype FieldValue = NotesValue(notes: Option<string>) | ChoiceValue(choice: string)

  /**
   * _transition_issue_in_review: for an issue in progress, the fields sent
   * with the start-review transition; None when the issue is in another
   * status and nothing is asked.
   */
  function InReviewFields(cfg: Config, status: string, notes: Option<string>): (r: Option<map<string, FieldValue>>)
    ensures r.Some? <==> status in cfg.inProgressStatuses
    ensures r.Some? ==> r.value.Keys == {cfg.resolutionNotesField} + (if cfg.devResolutionField != [] then {cfg.devResolutionField} else {})
    ensures r.Some? && cfg.devResolutionField != [] ==> r.value[cfg.devResolutionField] == ChoiceValue("Done")
    ensures r.Some? && cfg.resolutionNotesField != cfg.devResolutionField ==> r.value[cfg.resolutionNotesField] == NotesValue(notes)
  {
    if status !in cfg.inProgressStatuses then None
    else
      var fields := map[cfg.resolutionNotesField := NotesValue(notes)];
      Some(if cfg.devResolutionField != [] then fields[cfg.devResolutionField := ChoiceValue("Done")] else fields)
  }

  /**
   * _update_issue_resolution_notes: for an issue in review, the notes field
   * to update; None when the issue is in another status.
   */
  function NotesUpdateFields(cfg: Config, status: string, notes: Option<string>): (r: Option<map<string, FieldValue>>)
    ensures r.Some? <==> status in cfg.inReviewStatuses
    ensures r.Some? ==> r.value.Keys == {cfg.resolutionNotesField} && r.value[cfg.resolutionNotesField] == NotesValue(notes)
  {
    if status in cfg.inReviewStatuses then Some(map[cfg.resolutionNotesField := NotesValue(notes)]) else None
  }

  /** One entry of the list `jira.transitions` returns. */
  datatype Transition = Transition(id: string, name: string)

  /**
   * The id of the first transition named `name`; None where the source's
   * `[...][0]` raises IndexError because none is.
   */
  function TransitionId(ts: seq<Transition>, name: string): (r: Option<string>)
    ensures r.None? <==> forall i :: 0 <= i < |ts| ==> ts[i].name != name
    ensures r.Some? ==> exists i :: 0 <= i < |ts| && ts[i].name == name && ts[i].id == r.value &&
                                   forall j :: 0 <= j < i ==> ts[j].name != name
  {
    if ts == [] then None
    else if ts[0].name == name then Some(ts[0].id)
    else
      var r := TransitionId(ts[1..], name);
      assert r.Some? ==> exists i :: 0 <= i < |ts| && ts[i].name == name && ts[i].id == r.value &&
                                     forall j :: 0 <= j < i ==> ts[j].name != name by {
        if r.Some? {
          var i :| 0 <= i < |ts[1..]| && ts[1..][i].name == name && ts[1..][i].id == r.value &&
                   forall j :: 0 <= j < i ==> ts[1..][j].name != name;
          assert ts[i + 1] == ts[1..][i];
          assert forall j :: 1 <= j < i + 1 ==> ts[j] == ts[1..][j - 1];
        }
      }
      r
  }

  /** What is asked of one issue of a merge request event. */
  datatype Request =
    | NoRequest
    | UpdateFields(fields: map<string, FieldValue>)
    | DoTransition(transitionId: string, fields: map<string, FieldValue>)
    | TransitionFails                    // no transition of that name: the handler raises

  /**
   * The request for an issue in status `status` whose new notes are
   * `notes`, under plan `plan`; `transitions` lists the transitions Jira
   * offers for it.
   */
  function IssueRequest(cfg: Config, plan: Plan, status: string, notes: Option<string>, transitions: seq<Transition>): Request {
    match plan
    case ToReview =>
      (match InReviewFields(cfg, status, notes)
       case None => NoRequest
       case Some(fields) =>
         match TransitionId(transitions, cfg.startReviewTransition)
         case None => TransitionFails
         case Some(id) => DoTransition(id, fields))
    case NotesOnly =>
      (match NotesUpdateFields(cfg, status, notes)
       case None => NoRequest
       case Some(fields) => UpdateFields(fields))
    case _ => NoRequest
  }

  /**
   * A transition is asked for only under the review plan and only for an
   * issue in progress; a field update only under the notes plan and only
   * for an issue in review; and the notes sent are the new notes.
   */
  lemma IssueRequestGated(cfg: Config, plan: Plan, status: string, notes: Option<string>, transitions: seq<Transition>)
    ensures var q := IssueRequest(cfg, plan, status, notes, transitions);
      ((q.DoTransition? || q.TransitionFails?) <==> plan == ToReview && status in cfg.inProgressStatuses) &&
      (q.UpdateFields? <==> plan == NotesOnly && status in cfg.inReviewStatuses) &&
      (q.TransitionFails? <==>
         (plan == ToReview && status in cfg.inProgressStatuses &&
          forall i :: 0 <= i < |transitions| ==> transitions[i].name != cfg.startReviewTransition)) &&
      (q.UpdateFields? || q.DoTransition? ==>
         (q.fields[cfg.resolutionNotesField] == NotesValue(notes) ||
          cfg.resolutionNotesField == cfg.devResolutionField))
  {
  }

  // ---------------------------------------------------------------------
  // Issue keys of a push (webhooks/app/jira_update.py:220-226)
  // ---------------------------------------------------------------------

  /** A commit of a push event; a missing message or title reads as "". */
  datatype Commit = Commit(message: string, title: string)

  /** The issue keys of one commit: those of its message and of its title. */
  function KeysOf(c: Commit): set<string> {
    IssueKeys.ExtractIssueKeys(c.message) + IssueKeys.ExtractIssueKeys(c.title)
  }

  /** The issue keys of the messages and titles of `commits`. */
  function CommitKeys(commits: seq<Commit>): set<string> {
    if commits == [] then {} else CommitKeys(commits[..|commits| - 1]) + KeysOf(commits[|commits| - 1])
  }

  /**
   * The keys a push concerns: those of the ref name, and only when it has
   * none, those of every commit's message and title.
   */
  method PushIssueKeys(ref: string, commits: seq<Commit>) returns (keys: set<string>)
    ensures keys == if IssueKeys.ExtractIssueKeys(ref) != {} then IssueKeys.ExtractIssueKeys(ref) else CommitKeys(commits)
  {
    keys := IssueKeys.ExtractIssueKeys(ref);
    if keys == {} {
      var i := 0;
      while i < |commits|
        invariant 0 <= i <= |commits|
        invariant keys == CommitKeys(commits[..i])
      {
        assert commits[..i + 1][..i] == commits[..i];
        keys := keys + IssueKeys.ExtractIssueKeys(commits[i].message);
        keys := keys + IssueKeys.ExtractIssueKeys(commits[i].title);
        i := i + 1;
      }
      assert commits[..i] == commits;
    }
  }

  /** A key is in CommitKeys exactly when some commit's message or title yields it. */
  lemma CommitKeysExactly(commits: seq<Commit>, k: string)
    ensures k in CommitKeys(commits) <==> exists i :: 0 <= i < |commits| && k in KeysOf(commits[i])
  {
    if k in CommitKeys(commits) {
      var i := CommitKeysSound(commits, k);
    }
    if i :| 0 <= i < |commits| && k in KeysOf(commits[i]) {
      CommitKeysComplete(commits, i, k);
    }
  }

  /** A key of CommitKeys comes from the commit at the index returned. */
  lemma {:induction false} CommitKeysSound(commits: seq<Commit>, k: string) returns (i: nat)
    requires k in CommitKeys(commits)
    ensures i < |commits| && k in KeysOf(commits[i])
    decreases |commits|
  {
    var init := commits[..|commits| - 1];
    if k in KeysOf(commits[|commits| - 1]) {
      i := |commits| - 1;
    } else {
      i := CommitKeysSound(init, k);
      assert init[i] == commits[i];
    }
  }

  /** Every key of every commit is in CommitKeys. */
  lemma {:induction false} CommitKeysComplete(commits: seq<Commit>, i: nat, k: string)
    requires i < |commits| && k in KeysOf(commits[i])
    ensures k in CommitKeys(commits)
    decreases |commits|
  {
    var init := commits[..|commits| - 1];
    if i < |init| {
      assert init[i] == commits[i];
      CommitKeysComplete(init, i, k);
    }
  }

  /** Every key of a push is an issue key, and commits are read only when the ref names no issue. */
  lemma PushKeysAreIssueKeys(ref: string, commits: seq<Commit>, k: string)
    requires k in (if IssueKeys.ExtractIssueKeys(ref) != {} then IssueKeys.ExtractIssueKeys(ref) else CommitKeys(commits))
    ensures IssueKeys.IsKey(k)
  {
    if IssueKeys.ExtractIssueKeys(ref) != {} {
      IssueKeys.ExtractedAreKeys(ref, k);
    } else {
      CommitKeysExactly(commits, k);
      var i :| 0 <= i < |commits| && k in KeysOf(commits[i]);
      if k in IssueKeys.ExtractIssueKeys(commits[i].message) {
        IssueKeys.ExtractedAreKeys(commits[i].message, k);
      } else {
        IssueKeys.ExtractedAreKeys(commits[i].title, k);
      }
    }
  }
}
