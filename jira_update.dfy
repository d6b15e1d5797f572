/**
 * JiraUpdate of webhooks/app/jira_update.py: the list of issues waiting
 * for all their merge requests to be done, how merge request events add
 * to it, and how a poll sweeps it.  Jira's answers are given as a probe
 * per issue key; the wall clock as an integer `now`.
 */
module JiraUpdates {
  import IssueKeys
  import opened DeferredTransitions

  /** `key` matches `(p)-\d+` at its start for the enabled project key `p`. */
  predicate EligibleFor(key: string, p: string) {
    |key| > |p| + 1 && key[..|p|] == p && key[|p|] == '-' && IssueKeys.IsDigit(key[|p| + 1])
  }

  /** `key` matches `(<enabled-project-keys joined by |>)-\d+` at its start. */
  predicate IsEligible(key: string, enabledProjectKeys: seq<string>) {
    exists p :: p in enabledProjectKeys && EligibleFor(key, p)
  }

  predicate IsDoneAction(action: string) {
    action == "close" || action == "merge"
  }

  /**
   * The keys a merge request event registers: for a close or merge, the
   * issue keys of the branch name and the title that belong to an enabled
   * project; for any other action, none.
   */
  function EligibleKeys(action: string, branch: string, title: string, enabledProjectKeys: seq<string>): (r: set<string>)
    ensures forall k :: k in r <==>
              (IsDoneAction(action) && IsEligible(k, enabledProjectKeys) &&
               (k in IssueKeys.ExtractIssueKeys(branch) || k in IssueKeys.ExtractIssueKeys(title)))
  {
    if IsDoneAction(action) then
      set k | k in IssueKeys.ExtractIssueKeys(branch) + IssueKeys.ExtractIssueKeys(title) && IsEligible(k, enabledProjectKeys)
    else {}
  }

  /** Every registered key is an issue key: letters, a dash, digits. */
  lemma EligibleKeysAreIssueKeys(action: string, branch: string, title: string, enabledProjectKeys: seq<string>, k: string)
    requires k in EligibleKeys(action, branch, title, enabledProjectKeys)
    ensures IssueKeys.IsKey(k)
  {
    if k in IssueKeys.ExtractIssueKeys(branch) {
      IssueKeys.ExtractedAreKeys(branch, k);
    } else {
      IssueKeys.ExtractedAreKeys(title, k);
    }
  }

  class JiraUpdate {
    const enabledProjectKeys: seq<string>
    var doneMergeRequestIssues: seq<DeferredTransition>
    ghost var Repr: set<object>

    /** At most one entry per issue key, and every try counter between 1 and CheckMergeRequestStatusTries. */
    ghost predicate Valid()
      reads this, Repr
    {
      this in Repr &&
      (forall o :: o in doneMergeRequestIssues ==> o in Repr) &&
      UniqueKeys(States(doneMergeRequestIssues)) && TriesInRange(States(doneMergeRequestIssues))
    }

    constructor (enabledProjectKeys: seq<string>)
      ensures Valid() && fresh(Repr)
      ensures this.enabledProjectKeys == enabledProjectKeys && doneMergeRequestIssues == []
    {
      this.enabledProjectKeys := enabledProjectKeys;
      doneMergeRequestIssues := [];
      Repr := {this};
    }

    /** Resets the entry at index `i` in place; no other entry changes. */
    method ResetAt(i: nat, now: int)
      requires Valid() && i < |doneMergeRequestIssues|
      modifies doneMergeRequestIssues[i]
      ensures Valid()
      ensures States(doneMergeRequestIssues) == old(States(doneMergeRequestIssues))[i := Fresh(old(States(doneMergeRequestIssues))[i].issueKey, now)]
    {
      var list := doneMergeRequestIssues;
      ghost var before := States(list);
      ResetValid(before, i, now);
      var entry := list[i];
      forall j | 0 <= j < |list| && j != i ensures list[j] != entry {
        assert before[j].issueKey != before[i].issueKey;
      }
      entry.Reset(DeferInterval, now);
      forall j | 0 <= j < |list| ensures States(list)[j] == before[i := Fresh(before[i].issueKey, now)][j] {
        if j != i {
          assert list[j] != entry;
        }
      }
    }

    /** The index of the entry with key `key`, or the length of the list when there is none. */
    method FindKey(key: string) returns (i: nat)
      requires Valid()
      ensures i <= |doneMergeRequestIssues|
      ensures i == |doneMergeRequestIssues| <==> !HasKey(States(doneMergeRequestIssues), key)
      ensures i < |doneMergeRequestIssues| ==> i == FirstWithKey(States(doneMergeRequestIssues), key)
    {
      var list := doneMergeRequestIssues;
      i := 0;
      while i < |list| && list[i].issueKey != key
        invariant 0 <= i <= |list|
        invariant forall j :: 0 <= j < i ==> list[j].issueKey != key
      {
        i := i + 1;
      }
    }

    /** Appends a new entry for `key`, due one interval from now. */
    method AppendEntry(key: string, now: int)
      requires Valid() && !HasKey(States(doneMergeRequestIssues), key)
      modifies this
      ensures Valid() && fresh(Repr - old(Repr))
      ensures States(doneMergeRequestIssues) == old(States(doneMergeRequestIssues)) + [Fresh(key, now)]
    {
      var list := doneMergeRequestIssues;
      ghost var before := States(list);
      ghost var after := before + [Fresh(key, now)];
      AppendFreshValid(before, key, now);
      var entry := new DeferredTransition(DeferInterval, now, key);
      assert States(list) == before;
      assert (list + [entry])[..|list|] == list;
      doneMergeRequestIssues := list + [entry];
      Repr := Repr + {entry};
      assert States(doneMergeRequestIssues) == after;
    }

    /**
     * The body of the registration loop for one key: the entry that has it
     * is reset in place, or a new entry is appended.
     */
    method RegisterKey(key: string, now: int)
      requires Valid()
      modifies Repr
      ensures Valid() && fresh(Repr - old(Repr))
      ensures States(doneMergeRequestIssues) == Register(old(States(doneMergeRequestIssues)), key, now)
    {
      ghost var before := States(doneMergeRequestIssues);
      var i := FindKey(key);
      if i < |doneMergeRequestIssues| {
        RegisterExisting(before, i, key, now);
        ResetAt(i, now);
      } else {
        RegisterNew(before, key, now);
        AppendEntry(key, now);
      }
    }

    /**
     * _transition_issue_when_done: on a close or merge, register every
     * eligible issue key of the branch name and the title.
     */
    method TransitionIssueWhenDone(action: string, branch: string, title: string, now: int)
      requires Valid()
      modifies Repr
      ensures Valid() && fresh(Repr - old(Repr))
      ensures RegisteredFrom(old(States(doneMergeRequestIssues)), States(doneMergeRequestIssues),
                             EligibleKeys(action, branch, title, enabledProjectKeys), now)
    {
      RegisteredFromStart(States(doneMergeRequestIssues), now);
      if !IsDoneAction(action) {
        return;
      }
      var issueKeys := IssueKeys.ExtractIssueKeys(branch) + IssueKeys.ExtractIssueKeys(title);
      if issueKeys == {} {
        return;
      }
      var eligible := set k | k in issueKeys && IsEligible(k, enabledProjectKeys);
      assert eligible == EligibleKeys(action, branch, title, enabledProjectKeys);
      if eligible == {} {
        return;
      }
      RegisterKeys(eligible, now);
    }

    /** Registers one more key of the loop, keeping the relation to the list before the loop. */
    method RegisterNext(ghost before: seq<EntryState>, ghost done: set<string>, key: string, now: int)
      requires Valid() && key !in done
      requires RegisteredFrom(before, States(doneMergeRequestIssues), done, now)
      modifies Repr
      ensures Valid() && fresh(Repr - old(Repr))
      ensures RegisteredFrom(before, States(doneMergeRequestIssues), done + {key}, now)
    {
      RegisterStep(before, States(doneMergeRequestIssues), done, key, now);
      RegisterKey(key, now);
    }

    /** The registration loop: every key of `keys` in turn, in any order. */
    method RegisterKeys(keys: set<string>, now: int)
      requires Valid()
      modifies Repr
      ensures Valid() && fresh(Repr - old(Repr))
      ensures RegisteredFrom(old(States(doneMergeRequestIssues)), States(doneMergeRequestIssues), keys, now)
    {
      ghost var before := States(doneMergeRequestIssues);
      RegisteredFromStart(before, now);
      var remaining := keys;
      ghost var done: set<string> := {};
      while remaining != {}
        invariant Valid() && fresh(Repr - old(Repr))
        invariant remaining + done == keys && remaining !! done
        invariant RegisteredFrom(before, States(doneMergeRequestIssues), done, now)
        decreases remaining
      {
        var key :| key in remaining;
        RegisterNext(before, done, key, now);
        remaining := remaining - {key};
        done := done + {key};
      }
    }

    /**
     * poll: checks every entry in order and keeps those whose check does
     * not drop them.  When a check raises, the list is left as it was,
     * but the entries checked before it keep their updates.
     */
    method Poll(now: int, probe: string -> Probe) returns (attempted: seq<string>, raised: bool)
      requires Valid()
      modifies Repr
      ensures Valid() && Repr == old(Repr)
      ensures var r := RaiseIndex(old(States(doneMergeRequestIssues)), now, probe);
        (raised <==> r < |old(States(doneMergeRequestIssues))|) &&
        attempted == Attempts(old(States(doneMergeRequestIssues))[..r], now, probe)
      ensures !raised ==> States(doneMergeRequestIssues) == Survivors(old(States(doneMergeRequestIssues)), now, probe)
      ensures raised ==> doneMergeRequestIssues == old(doneMergeRequestIssues)
      ensures raised ==> var r := RaiseIndex(old(States(doneMergeRequestIssues)), now, probe);
        States(doneMergeRequestIssues) == AdvanceAll(old(States(doneMergeRequestIssues))[..r], now, probe) + old(States(doneMergeRequestIssues))[r..]
    {
      var list := doneMergeRequestIssues;
      var kept;
      ghost var r;
      kept, attempted, raised, r := Sweep(list, now, probe);
      assert Repr == old(Repr) && doneMergeRequestIssues == list;
      if !raised {
        doneMergeRequestIssues := kept;
      }
    }
  }

  /**
   * _process_done_merge_request_issues: checks one entry when it is due.
   * `remove` says whether the sweep drops it, `attempted` whether the
   * final transition was asked for, `raised` whether the search raised
   * out of the sweep.
   */
  method ProcessDoneMergeRequestIssue(entry: DeferredTransition, now: int, probe: Probe)
    returns (remove: bool, attempted: bool, raised: bool)
    modifies entry
    ensures var v := Evaluate(old(entry.State()), now, probe);
      raised == v.Raise? && remove == v.Drop? && attempted == (v == Drop(true))
    ensures entry.State() == Advance(old(entry.State()), now, probe)
  {
    if !entry.Triggered(now) {
      return false, false, false;
    }
    match probe
    case LookupFails =>
      return true, false, false;
    case SearchFails =>
      return false, false, true;
    case AllDone(inReview) =>
      return true, inReview, false;
    case StillOpen =>
      if entry.Exhausted(CheckMergeRequestStatusTries) {
        return true, false, false;
      }
      entry.Update(DeferInterval, now);
      return false, false, false;
  }

  /** Checks the entry at index `i` of `list`; no other entry changes. */
  method CheckAt(list: seq<DeferredTransition>, i: nat, now: int, probe: string -> Probe)
    returns (remove: bool, attempted: bool, raised: bool)
    requires Distinct(list) && i < |list|
    modifies list[i]
    ensures var e := old(list[i].State()); var v := Evaluate(e, now, probe(e.issueKey));
      raised == v.Raise? && remove == v.Drop? && attempted == (v == Drop(true))
    ensures list[i].State() == Advance(old(list[i].State()), now, probe(list[i].issueKey))
    ensures forall j :: 0 <= j < |list| && j != i ==> list[j].State() == old(list[j].State())
  {
    remove, attempted, raised := ProcessDoneMergeRequestIssue(list[i], now, probe(list[i].issueKey));
  }

  /** Whether no object occurs twice in `list`. */
  predicate Distinct(list: seq<DeferredTransition>) {
    forall a, b :: 0 <= a < b < |list| ==> list[a] != list[b]
  }

  /**
   * The list comprehension of poll: checks the entries of `list` in order
   * and collects those that stay; `r` is the index of the check that
   * raised, or the length of the list.
   */
  method Sweep(list: seq<DeferredTransition>, now: int, probe: string -> Probe)
    returns (kept: seq<DeferredTransition>, attempted: seq<string>, raised: bool, ghost r: nat)
    requires UniqueKeys(States(list)) && TriesInRange(States(list))
    modifies list
    ensures forall o :: o in kept ==> o in list
    ensures r <= |list| && (raised <==> r < |list|)
    ensures r == RaiseIndex(old(States(list)), now, probe)
    ensures States(list) == AdvanceAll(old(States(list))[..r], now, probe) + old(States(list))[r..]
    ensures !raised ==> States(kept) == Survivors(old(States(list)), now, probe)
    ensures attempted == Attempts(old(States(list))[..r], now, probe)
    ensures raised ==> UniqueKeys(States(list)) && TriesInRange(States(list))
    ensures !raised ==> UniqueKeys(States(kept)) && TriesInRange(States(kept))
  {
    ghost var before := States(list);
    KeysDistinct(list);
    kept := [];
    ghost var ks: seq<nat> := [];
    attempted := [];
    raised := false;
    var i := 0;
    while i < |list|
      invariant 0 <= i <= |list|
      invariant forall j :: 0 <= j < |list| ==>
        list[j].State() == if j < i then Advance(before[j], now, probe(before[j].issueKey)) else before[j]
      invariant forall j :: 0 <= j < i ==> !Raises(before[j], now, probe)
      invariant |kept| == |ks| && forall t :: 0 <= t < |ks| ==> ks[t] < i && kept[t] == list[ks[t]]
      invariant ks == KeptIndices(before[..i], now, probe)
      invariant attempted == Attempts(before[..i], now, probe)
    {
      var kept', attempted', raisedHere;
      ghost var ks';
      kept', ks', attempted', raisedHere := SweepOne(list, i, kept, ks, attempted, before, now, probe);
      if raisedHere {
        raised := true;
        break;
      }
      kept, ks, attempted := kept', ks', attempted';
      i := i + 1;
    }
    r := i;
    SweepEnd(list, kept, ks, attempted, raised, before, r, now, probe);
  }

  /** Objects with distinct issue keys are distinct objects. */
  lemma KeysDistinct(list: seq<DeferredTransition>)
    requires UniqueKeys(States(list))
    ensures Distinct(list)
  {
    ghost var ss := States(list);
    forall a, b | 0 <= a < b < |list| ensures list[a] != list[b] {
      assert ss[a].issueKey != ss[b].issueKey;
    }
  }

  /** What the loop of Sweep leaves behind, stated as Sweep promises it. */
  lemma SweepEnd(list: seq<DeferredTransition>, kept: seq<DeferredTransition>, ks: seq<nat>, attempted: seq<string>,
                 raised: bool, before: seq<EntryState>, r: nat, now: int, probe: string -> Probe)
    requires |before| == |list| && r <= |list| && (raised <==> r < |list|)
    requires raised ==> Raises(before[r], now, probe)
    requires forall j :: 0 <= j < r ==> !Raises(before[j], now, probe)
    requires forall j :: 0 <= j < |list| ==>
      list[j].State() == if j < r then Advance(before[j], now, probe(before[j].issueKey)) else before[j]
    requires |kept| == |ks| && forall t :: 0 <= t < |ks| ==> ks[t] < r && kept[t] == list[ks[t]]
    requires ks == KeptIndices(before[..r], now, probe)
    requires attempted == Attempts(before[..r], now, probe)
    requires UniqueKeys(before) && TriesInRange(before)
    ensures forall o :: o in kept ==> o in list
    ensures r == RaiseIndex(before, now, probe)
    ensures States(list) == AdvanceAll(before[..r], now, probe) + before[r..]
    ensures !raised ==> States(kept) == Survivors(before, now, probe)
    ensures raised ==> UniqueKeys(States(list)) && TriesInRange(States(list))
    ensures !raised ==> UniqueKeys(States(kept)) && TriesInRange(States(kept))
  {
    forall t | 0 <= t < |kept| ensures kept[t] in list {
      assert kept[t] == list[ks[t]];
    }
    RaiseIndexUnique(before, now, probe, r);
    SweptStates(list, before, r, now, probe);
    if raised {
      AdvancedValid(before, r, now, probe);
    } else {
      assert before[..r] == before;
      SweptKept(list, kept, ks, before, now, probe);
      SurvivorsUniqueKeys(before, now, probe);
      SurvivorsTriesInRange(before, now, probe);
    }
  }

  /** One iteration of the comprehension: check entry `i`, then keep it or not. */
  method SweepOne(list: seq<DeferredTransition>, i: nat, kept: seq<DeferredTransition>, ghost ks: seq<nat>,
                  attempted: seq<string>, ghost before: seq<EntryState>, now: int, probe: string -> Probe)
    returns (kept': seq<DeferredTransition>, ghost ks': seq<nat>, attempted': seq<string>, raised: bool)
    requires Distinct(list) && i < |list| == |before|
    requires forall j :: 0 <= j < |list| ==>
      list[j].State() == if j < i then Advance(before[j], now, probe(before[j].issueKey)) else before[j]
    requires |kept| == |ks| && forall t :: 0 <= t < |ks| ==> ks[t] < i && kept[t] == list[ks[t]]
    requires ks == KeptIndices(before[..i], now, probe)
    requires attempted == Attempts(before[..i], now, probe)
    modifies list[i]
    ensures raised <==> Raises(before[i], now, probe)
    ensures raised ==> forall j :: 0 <= j < |list| ==> list[j].State() == old(list[j].State())
    ensures !raised ==> forall j :: 0 <= j < |list| ==>
      list[j].State() == if j < i + 1 then Advance(before[j], now, probe(before[j].issueKey)) else before[j]
    ensures !raised ==> |kept'| == |ks'| && forall t :: 0 <= t < |ks'| ==> ks'[t] < i + 1 && kept'[t] == list[ks'[t]]
    ensures !raised ==> ks' == KeptIndices(before[..i + 1], now, probe)
    ensures !raised ==> attempted' == Attempts(before[..i + 1], now, probe)
  {
    var remove, attemptedHere;
    remove, attemptedHere, raised := CheckAt(list, i, now, probe);
    if raised {
      return kept, ks, attempted, raised;
    }
    kept', ks', attempted' := Collect(list, i, kept, ks, attempted, before, now, probe, remove, attemptedHere);
  }

  /**
   * The comprehension's bookkeeping for entry `i` once its check has not
   * raised: keep it unless the check drops it, and note its final
   * transition if one was asked for.
   */
  method Collect(list: seq<DeferredTransition>, i: nat, kept: seq<DeferredTransition>, ghost ks: seq<nat>,
                 attempted: seq<string>, ghost before: seq<EntryState>, now: int, probe: string -> Probe,
                 remove: bool, attemptedHere: bool)
    returns (kept': seq<DeferredTransition>, ghost ks': seq<nat>, attempted': seq<string>)
    requires i < |list| == |before| && list[i].issueKey == before[i].issueKey
    requires var v := Evaluate(before[i], now, probe(before[i].issueKey));
      !v.Raise? && remove == v.Drop? && attemptedHere == (v == Drop(true))
    requires |kept| == |ks| && forall t :: 0 <= t < |ks| ==> ks[t] < i && kept[t] == list[ks[t]]
    requires ks == KeptIndices(before[..i], now, probe)
    requires attempted == Attempts(before[..i], now, probe)
    ensures |kept'| == |ks'| && forall t :: 0 <= t < |ks'| ==> ks'[t] < i + 1 && kept'[t] == list[ks'[t]]
    ensures ks' == KeptIndices(before[..i + 1], now, probe)
    ensures attempted' == Attempts(before[..i + 1], now, probe)
  {
    SweepStep(before, i, now, probe);
    attempted' := attempted;
    if attemptedHere {
      attempted' := attempted + [list[i].issueKey];
    }
    kept', ks' := kept, ks;
    if !remove {
      kept', ks' := kept + [list[i]], ks + [i];
    }
  }

  /** The states after a sweep that stopped at `r`, as a whole list. */
  lemma SweptStates(list: seq<DeferredTransition>, before: seq<EntryState>, r: nat, now: int, probe: string -> Probe)
    requires |before| == |list| && r <= |list|
    requires forall j :: 0 <= j < |list| ==>
      list[j].State() == if j < r then Advance(before[j], now, probe(before[j].issueKey)) else before[j]
    ensures States(list) == AdvanceAll(before[..r], now, probe) + before[r..]
  {
  }

  /** The entries a complete sweep kept are the survivors. */
  lemma SweptKept(list: seq<DeferredTransition>, kept: seq<DeferredTransition>, ks: seq<nat>, before: seq<EntryState>,
                  now: int, probe: string -> Probe)
    requires |before| == |list|
    requires forall j :: 0 <= j < |list| ==> list[j].State() == Advance(before[j], now, probe(before[j].issueKey))
    requires |kept| == |ks| && forall t :: 0 <= t < |ks| ==> ks[t] < |list| && kept[t] == list[ks[t]]
    requires ks == KeptIndices(before, now, probe)
    ensures States(kept) == Survivors(before, now, probe)
  {
    SurvivorsExactly(before, now, probe);
  }
}
