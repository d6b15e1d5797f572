/**
 * What the two note-posting handlers (webhooks/app/review_checklist.py and
 * webhooks/app/reviewer_suggestion.py) read of a GitLab merge request
 * event, the configuration they share, and how a text file is loaded from
 * the repository with a local fallback (webhooks/app/utils.py:70-76).
 */
module MergeRequestEvents {
  import opened Wrappers

  /** The fields of a merge request event the handlers read. */
  datatype Event = Event(
    eventType: Option<string>,   // `event.get('event_type')`
    projectPath: string,         // project.path_with_namespace
    targetBranch: string,        // object_attributes.target_branch
    action: string,              // object_attributes.action
    username: string)            // user.username

  /** The `enabled-projects` and `target-branches` lists of a handler's configuration. */
  datatype NoteConfig = NoteConfig(enabledProjects: seq<string>, targetBranches: seq<string>)

  /** `process` goes on only for events whose event_type is merge_request. */
  predicate IsMergeRequestEvent(ev: Event) {
    ev.eventType == Some("merge_request")
  }

  /** The gates of both handlers: an enabled project, a watched target branch, a newly opened request. */
  predicate Selected(cfg: NoteConfig, ev: Event) {
    ev.projectPath in cfg.enabledProjects && ev.targetBranch in cfg.targetBranches && ev.action == "open"
  }

  /**
   * load_from_remote_file: `fetched[i]` is the outcome of reading the file
   * at the i-th ref (None: the read raised).  The first ref that can be
   * read wins, even with empty contents; `fallback` only when none can.
   */
  function LoadRemote(fetched: seq<Option<string>>, fallback: Option<string>): (r: Option<string>)
    ensures (forall i :: 0 <= i < |fetched| ==> fetched[i].None?) ==> r == fallback
    ensures forall i :: 0 <= i < |fetched| && fetched[i].Some? && (forall j :: 0 <= j < i ==> fetched[j].None?) ==>
                        r == fetched[i]
  {
    if fetched == [] then fallback
    else if fetched[0].Some? then fetched[0]
    else
      var r := LoadRemote(fetched[1..], fallback);
      assert forall i :: 1 <= i < |fetched| ==> fetched[i] == fetched[1..][i - 1];
      r
  }
}
