/**
 * ReviewChecklist of webhooks/app/review_checklist.py: on a newly opened
 * merge request of an enabled project and watched target branch, post the
 * checklist found in the repository, or else the local one, as a note.
 */
module ReviewChecklists {
  import opened Wrappers
  import opened MergeRequestEvents

  /**
   * _add_checklist: the body of the note to create, or None when nothing is
   * posted.  `remote` holds the outcomes of reading the remote checklist at
   * each ref, `local` the checklist file read at start-up.
   */
  function AddChecklist(cfg: NoteConfig, ev: Event, remote: seq<Option<string>>, local: Option<string>): (note: Option<string>)
    ensures note.Some? ==> Selected(cfg, ev) && note == LoadRemote(remote, local) && note.value != []
  {
    if !Selected(cfg, ev) then None
    else
      match LoadRemote(remote, local)
      case None => None
      case Some(checklist) => if |checklist| == 0 then None else Some(checklist)
  }

  /** process: only merge request events reach _add_checklist; nothing raises out of it. */
  function Process(cfg: NoteConfig, ev: Event, remote: seq<Option<string>>, local: Option<string>): (note: Option<string>)
    ensures note.Some? ==> IsMergeRequestEvent(ev)
    ensures IsMergeRequestEvent(ev) ==> note == AddChecklist(cfg, ev, remote, local)
  {
    if IsMergeRequestEvent(ev) then AddChecklist(cfg, ev, remote, local) else None
  }

  /**
   * Exactly one note is posted for a selected merge request event whose
   * checklist loads and is non-empty, and its body is that checklist.
   */
  lemma PostsLoadedChecklist(cfg: NoteConfig, ev: Event, remote: seq<Option<string>>, local: Option<string>)
    ensures var text := LoadRemote(remote, local);
      (Process(cfg, ev, remote, local).Some? <==>
         (IsMergeRequestEvent(ev) && Selected(cfg, ev) && text.Some? && text.value != [])) &&
      (Process(cfg, ev, remote, local).Some? ==> Process(cfg, ev, remote, local) == text)
  {
  }

  /** A checklist readable at some ref is preferred to the local one, even when it is empty. */
  lemma RemoteChecklistPreferred(cfg: NoteConfig, ev: Event, remote: seq<Option<string>>, local: Option<string>, i: nat)
    requires IsMergeRequestEvent(ev) && Selected(cfg, ev)
    requires i < |remote| && remote[i].Some? && forall j :: 0 <= j < i ==> remote[j].None?
    ensures Process(cfg, ev, remote, local) == if remote[i].value == [] then None else remote[i]
  {
  }

  /** With no readable remote checklist the local one decides. */
  lemma LocalChecklistFallback(cfg: NoteConfig, ev: Event, remote: seq<Option<string>>, local: Option<string>)
    requires IsMergeRequestEvent(ev) && Selected(cfg, ev)
    requires forall j :: 0 <= j < |remote| ==> remote[j].None?
    ensures Process(cfg, ev, remote, local) == if local.None? || local.value == [] then None else local
  {
  }
}
