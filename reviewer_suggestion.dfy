/**
 * ReviewerSuggestion of webhooks/app/reviewer_suggestion.py: on a newly
 * opened merge request, collect the files it changes, look up their code
 * owners, and post a note rendered from a template that is told the owners
 * other than the author and whether the author is the only one.
 */
module ReviewerSuggestions {
  import opened Wrappers
  import opened MergeRequestEvents

  /** One entry of the merge request's `changes` list. */
  datatype Change = Change(oldPath: string, newPath: string)

  /** One pair `CodeOwners.of` yields: the kind of owner and its name, such as "@alice". */
  datatype Owner = Owner(kind: string, name: string)

  /** The `data` the template is rendered with. */
  datatype TemplateData = TemplateData(codeowners: set<string>, author: string, authorIsTheOnlyCodeowner: bool)

  /** Every path a change names, before or after it. */
  function ChangedPaths(changes: seq<Change>): (files: set<string>) {
    (set i | 0 <= i < |changes| :: changes[i].oldPath) + (set i | 0 <= i < |changes| :: changes[i].newPath)
  }

  /** The owner names of `files`, where `ownersOf(f)` is what `CodeOwners.of(f)` yields. */
  function OwnerNames(files: set<string>, ownersOf: string -> seq<Owner>): set<string> {
    set f, j | f in files && 0 <= j < |ownersOf(f)| :: ownersOf(f)[j].name
  }

  /** The loop of reviewer_suggestion.py:45-49: adds both paths of every change. */
  method CollectChangedFiles(changes: Option<seq<Change>>) returns (files: set<string>)
    ensures changes.None? ==> files == {}
    ensures changes.Some? ==> files == ChangedPaths(changes.value)
  {
    files := {};
    if changes.Some? {
      var cs := changes.value;
      for i := 0 to |cs|
        invariant files == ChangedPaths(cs[..i])
      {
        assert forall k :: 0 <= k < i ==> cs[..i + 1][k] == cs[..i][k];
        files := files + {cs[i].oldPath};
        files := files + {cs[i].newPath};
      }
      assert cs[..|cs|] == cs;
    }
  }

  /** A path is changed exactly when some change names it before or after. */
  lemma ChangedPathsExactly(changes: seq<Change>, f: string)
    ensures f in ChangedPaths(changes) <==>
            exists i :: 0 <= i < |changes| && (changes[i].oldPath == f || changes[i].newPath == f)
  {
  }

  /** The loop of reviewer_suggestion.py:63-66: the union of the owners of every changed file. */
  method CollectOwners(files: set<string>, ownersOf: string -> seq<Owner>) returns (owners: set<string>)
    ensures owners == OwnerNames(files, ownersOf)
  {
    owners := {};
    var remaining := files;
    while remaining != {}
      invariant remaining <= files
      invariant owners == OwnerNames(files - remaining, ownersOf)
      decreases remaining
    {
      var f :| f in remaining;
      OwnerNamesAdd(files - remaining, f, ownersOf);
      owners := owners + (set j | 0 <= j < |ownersOf(f)| :: ownersOf(f)[j].name);
      remaining := remaining - {f};
      assert files - remaining == (files - (remaining + {f})) + {f};
    }
    assert files - remaining == files;
  }

  lemma OwnerNamesAdd(done: set<string>, f: string, ownersOf: string -> seq<Owner>)
    ensures OwnerNames(done + {f}, ownersOf) ==
            OwnerNames(done, ownersOf) + (set j | 0 <= j < |ownersOf(f)| :: ownersOf(f)[j].name)
  {
    var a := OwnerNames(done + {f}, ownersOf);
    var b := OwnerNames(done, ownersOf) + (set j | 0 <= j < |ownersOf(f)| :: ownersOf(f)[j].name);
    forall o | o in a ensures o in b {
      var g, j :| g in done + {f} && 0 <= j < |ownersOf(g)| && ownersOf(g)[j].name == o;
    }
  }

  /** An owner is collected exactly when it owns some changed file. */
  lemma OwnerNamesExactly(files: set<string>, ownersOf: string -> seq<Owner>, o: string)
    ensures o in OwnerNames(files, ownersOf) <==>
            exists f, j :: f in files && 0 <= j < |ownersOf(f)| && ownersOf(f)[j].name == o
  {
  }

  /** `'@' + username`, the author as code owners name people. */
  function Author(ev: Event): (author: string)
    ensures |author| == |ev.username| + 1 && author[0] == '@' && author[1..] == ev.username
  {
    "@" + ev.username
  }

  /**
   * The data of reviewer_suggestion.py:68-72 and 88-91: the owners without
   * the author, and whether the author was the only owner.
   */
  method SuggestionData(owners: set<string>, author: string) returns (data: TemplateData)
    ensures data.codeowners == owners - {author}
    ensures data.author == author
    ensures data.authorIsTheOnlyCodeowner <==> owners == {author}
  {
    var changeOwners := owners;
    var onlyOwner := author in changeOwners && |changeOwners| == 1;
    if onlyOwner {
      OnlyMember(changeOwners, author);
    }
    if author in changeOwners {
      changeOwners := changeOwners - {author};
    }
    data := TemplateData(changeOwners, author, onlyOwner);
  }

  /** A set of one element holding x is {x}. */
  lemma OnlyMember(s: set<string>, x: string)
    requires x in s && |s| == 1
    ensures s == {x}
  {
    assert |s - {x}| == 0;
  }

  /**
   * _add_reviewer_suggestion: the body of the note to post, or None.
   * `changes` is the `changes` list of the merge request (None: absent),
   * `codeowners` the CODEOWNERS file at master or main (None: at neither,
   * which raises), `ownersOf(text, f)` what the code owners of `text` say
   * of f, `remote`/`local` the template loads and `render` its rendering.
   */
  method AddReviewerSuggestion(cfg: NoteConfig, ev: Event, changes: Option<seq<Change>>, codeowners: Option<string>,
                               ownersOf: (string, string) -> seq<Owner>, remote: seq<Option<string>>,
                               local: Option<string>, render: (string, TemplateData) -> string)
    returns (note: Option<string>)
    ensures note.Some? <==>
      (Selected(cfg, ev) && ChangedFilesOf(changes) != {} && codeowners.Some? &&
       var template := LoadRemote(remote, local); template.Some? && template.value != [])
    ensures note.Some? ==>
      var owners := OwnerNames(ChangedFilesOf(changes), f => ownersOf(codeowners.value, f));
      note.value == render(LoadRemote(remote, local).value,
                           TemplateData(owners - {Author(ev)}, Author(ev), owners == {Author(ev)}))
  {
    if !Selected(cfg, ev) {
      return None;
    }
    var files := CollectChangedFiles(changes);
    if |files| == 0 {
      return None;
    }
    if codeowners.None? {
      return None;
    }
    var ownersText := codeowners.value;
    var owners := CollectOwners(files, f => ownersOf(ownersText, f));
    var data := SuggestionData(owners, Author(ev));
    var template := LoadRemote(remote, local);
    if template.None? {
      return None;
    }
    if |template.value| == 0 {
      return None;
    }
    note := Some(render(template.value, data));
  }

  /** The changed files for the `changes` of a merge request, none when the list is absent. */
  function ChangedFilesOf(changes: Option<seq<Change>>): set<string> {
    if changes.Some? then ChangedPaths(changes.value) else {}
  }

  /** process: only merge request events are handled, and nothing raises out of it. */
  method Process(cfg: NoteConfig, ev: Event, changes: Option<seq<Change>>, codeowners: Option<string>,
                 ownersOf: (string, string) -> seq<Owner>, remote: seq<Option<string>>,
                 local: Option<string>, render: (string, TemplateData) -> string)
    returns (note: Option<string>)
    ensures note.Some? <==>
      (IsMergeRequestEvent(ev) && Selected(cfg, ev) && ChangedFilesOf(changes) != {} && codeowners.Some? &&
       var template := LoadRemote(remote, local); template.Some? && template.value != [])
    ensures note.Some? ==>
      var owners := OwnerNames(ChangedFilesOf(changes), f => ownersOf(codeowners.value, f));
      note.value == render(LoadRemote(remote, local).value,
                           TemplateData(owners - {Author(ev)}, Author(ev), owners == {Author(ev)}))
  {
    if !IsMergeRequestEvent(ev) {
      return None;
    }
    note := AddReviewerSuggestion(cfg, ev, changes, codeowners, ownersOf, remote, local, render);
  }

  /**
   * The code owners handed to the template are exactly the people, other
   * than the author, named as an owner of a path some change touches.
   */
  lemma SuggestedOwnersOwnChangedFiles(changes: seq<Change>, ownersOf: string -> seq<Owner>, ev: Event, x: string)
    ensures x in OwnerNames(ChangedPaths(changes), ownersOf) - {Author(ev)} <==>
            x != Author(ev) &&
            exists i, f, j :: 0 <= i < |changes| && (changes[i].oldPath == f || changes[i].newPath == f) &&
                              0 <= j < |ownersOf(f)| && ownersOf(f)[j].name == x
  {
    OwnerNamesExactly(ChangedPaths(changes), ownersOf, x);
    if x in OwnerNames(ChangedPaths(changes), ownersOf) {
      var f, j :| f in ChangedPaths(changes) && 0 <= j < |ownersOf(f)| && ownersOf(f)[j].name == x;
      ChangedPathsExactly(changes, f);
    }
    if exists i, f, j :: 0 <= i < |changes| && (changes[i].oldPath == f || changes[i].newPath == f) &&
                         0 <= j < |ownersOf(f)| && ownersOf(f)[j].name == x {
      var i, f, j :| 0 <= i < |changes| && (changes[i].oldPath == f || changes[i].newPath == f) &&
                     0 <= j < |ownersOf(f)| && ownersOf(f)[j].name == x;
      ChangedPathsExactly(changes, f);
    }
  }
}
