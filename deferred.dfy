/**
 * The deferred "all merge requests done" check of
 * webhooks/app/jira_update.py: one entry per issue, its try counter and
 * the time of its next check, and what one sweep of the list does to
 * each entry.  The wall clock is an integer `now`, one value per call.
 */
module DeferredTransitions {

  /** Seconds between two checks of the same issue (DEFER_INTERNAL). */
  const DeferInterval: int := 5

  /** Checks after which an issue with merge requests still open is given up (CHECK_MR_STATUS_TRIES). */
  const CheckMergeRequestStatusTries: int := 10

  /** The fields of one entry, as a value. */
  datatype EntryState = EntryState(issueKey: string, tries: int, scheduledTime: int)

  /** A JiraDeferredTransition: the issue key never changes, the counter and the schedule do. */
  class DeferredTransition {
    const issueKey: string
    var tries: int
    var scheduledTime: int

    function State(): EntryState
      reads this
    {
      EntryState(issueKey, tries, scheduledTime)
    }

    constructor (interval: int, now: int, issueKey: string)
      ensures State() == EntryState(issueKey, 1, now + interval)
    {
      this.issueKey := issueKey;
      new;
      Reset(interval, now);
    }

    /** Back to the first try, due `interval` seconds from now. */
    method Reset(interval: int, now: int)
      modifies this
      ensures State() == EntryState(issueKey, 1, now + interval)
    {
      tries := 1;
      scheduledTime := now + interval;
    }

    /** One more try, due `interval` seconds from now. */
    method Update(interval: int, now: int)
      modifies this
      ensures State() == EntryState(issueKey, old(tries) + 1, now + interval)
    {
      tries := tries + 1;
      scheduledTime := now + interval;
    }

    predicate Triggered(now: int)
      reads this
    {
      now >= scheduledTime
    }

    predicate Exhausted(maxTries: int)
      reads this
    {
      tries >= maxTries
    }
  }

  /** The states of a list of entries, in order. */
  function States(es: seq<DeferredTransition>): (r: seq<EntryState>)
    reads es
    ensures |r| == |es| && forall j :: 0 <= j < |es| ==> r[j] == es[j].State()
  {
    if es == [] then [] else States(es[..|es| - 1]) + [es[|es| - 1].State()]
  }

  // ---------------------------------------------------------------------
  // One check of one entry (webhooks/app/jira_update.py:95-129)
  // ---------------------------------------------------------------------

  /** What Jira answers when a due entry is checked, as far as the check depends on it. */
  datatype Probe =
    | LookupFails               // fetching the issue raises
    | SearchFails               // the development-status search raises
    | StillOpen                 // the search does not return exactly this issue
    | AllDone(inReview: bool)   // it does; `inReview`: the issue's status is an in-review status

  /** The outcome of one check: keep the entry (maybe updated), drop it, or raise out of the sweep. */
  datatype Verdict = Keep(next: EntryState) | Drop(transitionAttempted: bool) | Raise

  function Evaluate(e: EntryState, now: int, probe: Probe): (v: Verdict)
    ensures now < e.scheduledTime ==> v == Keep(e)
    ensures v.Keep? ==> v.next.issueKey == e.issueKey
    ensures v.Keep? && v.next != e ==> probe == StillOpen && v.next.tries == e.tries + 1 && v.next.tries <= CheckMergeRequestStatusTries
    ensures v == Drop(true) <==> now >= e.scheduledTime && probe == AllDone(true)
    ensures now >= e.scheduledTime ==> (v == Raise <==> probe == SearchFails)
    ensures now >= e.scheduledTime ==>
              (probe == LookupFails || probe.AllDone? || (probe == StillOpen && e.tries >= CheckMergeRequestStatusTries) ==> v.Drop?)
    ensures now >= e.scheduledTime && v.Keep? ==> v.next == EntryState(e.issueKey, e.tries + 1, now + DeferInterval)
    ensures now >= e.scheduledTime && probe == StillOpen && e.tries < CheckMergeRequestStatusTries ==>
              v == Keep(EntryState(e.issueKey, e.tries + 1, now + DeferInterval))
  {
    if now < e.scheduledTime then Keep(e)
    else match probe
      case LookupFails => Drop(false)
      case SearchFails => Raise
      case AllDone(inReview) => Drop(inReview)
      case StillOpen =>
        if e.tries >= CheckMergeRequestStatusTries then Drop(false)
        else Keep(EntryState(e.issueKey, e.tries + 1, now + DeferInterval))
  }

  /** The state an entry is left in by its check: updated when kept, untouched otherwise. */
  function Advance(e: EntryState, now: int, probe: Probe): EntryState {
    if Evaluate(e, now, probe).Keep? then Evaluate(e, now, probe).next else e
  }

  predicate Raises(e: EntryState, now: int, probe: string -> Probe) {
    Evaluate(e, now, probe(e.issueKey)).Raise?
  }

  // ---------------------------------------------------------------------
  // One sweep of the list (webhooks/app/jira_update.py:279-280)
  // ---------------------------------------------------------------------

  /** The entries a sweep keeps, each in the state its check left it in, in order. */
  function Survivors(es: seq<EntryState>, now: int, probe: string -> Probe): seq<EntryState> {
    if es == [] then []
    else
      var last := es[|es| - 1];
      var v := Evaluate(last, now, probe(last.issueKey));
      Survivors(es[..|es| - 1], now, probe) + (if v.Keep? then [v.next] else [])
  }

  /** The issues whose final transition a sweep asks for, in order. */
  function Attempts(es: seq<EntryState>, now: int, probe: string -> Probe): seq<string> {
    if es == [] then []
    else
      var last := es[|es| - 1];
      Attempts(es[..|es| - 1], now, probe) +
        (if Evaluate(last, now, probe(last.issueKey)) == Drop(true) then [last.issueKey] else [])
  }

  /** The indices of the entries a sweep keeps, in order. */
  function KeptIndices(es: seq<EntryState>, now: int, probe: string -> Probe): seq<nat> {
    if es == [] then []
    else
      var last := es[|es| - 1];
      KeptIndices(es[..|es| - 1], now, probe) +
        (if Evaluate(last, now, probe(last.issueKey)).Keep? then [|es| - 1] else [])
  }

  /** Checking one more entry extends the survivors and the attempts by that entry's outcome. */
  lemma SweepStep(es: seq<EntryState>, i: nat, now: int, probe: string -> Probe)
    requires i < |es|
    ensures var v := Evaluate(es[i], now, probe(es[i].issueKey));
      KeptIndices(es[..i + 1], now, probe) == KeptIndices(es[..i], now, probe) + (if v.Keep? then [i] else []) &&
      Attempts(es[..i + 1], now, probe) == Attempts(es[..i], now, probe) + (if v == Drop(true) then [es[i].issueKey] else [])
  {
    assert es[..i + 1][..i] == es[..i];
  }

  /** A sweep that raised at `r` leaves keys unique and counters in range. */
  lemma AdvancedValid(es: seq<EntryState>, r: nat, now: int, probe: string -> Probe)
    requires r <= |es| && UniqueKeys(es) && TriesInRange(es)
    ensures UniqueKeys(AdvanceAll(es[..r], now, probe) + es[r..]) && TriesInRange(AdvanceAll(es[..r], now, probe) + es[r..])
  {
    SurvivorsTriesInRange(es[..r], now, probe);
    var s := AdvanceAll(es[..r], now, probe) + es[r..];
    assert forall j :: 0 <= j < |es| ==> s[j].issueKey == es[j].issueKey;
  }

  /** The index of the first entry whose check raises, or the length of the list when none does. */
  function RaiseIndex(es: seq<EntryState>, now: int, probe: string -> Probe): (r: nat)
    ensures r <= |es|
    ensures forall j :: 0 <= j < r ==> !Raises(es[j], now, probe)
    ensures r < |es| ==> Raises(es[r], now, probe)
  {
    if es == [] then 0
    else if Raises(es[0], now, probe) then 0
    else 1 + RaiseIndex(es[1..], now, probe)
  }

  /** The first raising check is the only index that raises with no raise before it. */
  lemma RaiseIndexUnique(es: seq<EntryState>, now: int, probe: string -> Probe, r: nat)
    requires r <= |es| && (forall j :: 0 <= j < r ==> !Raises(es[j], now, probe))
    requires r < |es| ==> Raises(es[r], now, probe)
    ensures r == RaiseIndex(es, now, probe)
  {
  }

  /** Every entry after its own check, for the part of a sweep done before it raised. */
  function AdvanceAll(es: seq<EntryState>, now: int, probe: string -> Probe): (r: seq<EntryState>)
    ensures |r| == |es| && forall j :: 0 <= j < |es| ==> r[j] == Advance(es[j], now, probe(es[j].issueKey))
  {
    if es == [] then [] else AdvanceAll(es[..|es| - 1], now, probe) + [Advance(es[|es| - 1], now, probe(es[|es| - 1].issueKey))]
  }

  predicate UniqueKeys(ss: seq<EntryState>) {
    forall i, j :: 0 <= i < j < |ss| ==> ss[i].issueKey != ss[j].issueKey
  }

  predicate TriesInRange(ss: seq<EntryState>) {
    forall i :: 0 <= i < |ss| ==> 1 <= ss[i].tries <= CheckMergeRequestStatusTries
  }

  /**
   * A sweep keeps exactly the entries whose check keeps them, in their
   * order, each in the state its check left it in.
   */
  lemma {:induction false} SurvivorsExactly(es: seq<EntryState>, now: int, probe: string -> Probe)
    ensures var ks := KeptIndices(es, now, probe);
      |Survivors(es, now, probe)| == |ks| &&
      (forall t :: 0 <= t < |ks| ==> ks[t] < |es| && Survivors(es, now, probe)[t] == Advance(es[ks[t]], now, probe(es[ks[t]].issueKey))) &&
      (forall t, u :: 0 <= t < u < |ks| ==> ks[t] < ks[u]) &&
      (forall j :: 0 <= j < |es| ==> (j in ks <==> Evaluate(es[j], now, probe(es[j].issueKey)).Keep?))
  {
    if es != [] {
      var init := es[..|es| - 1];
      SurvivorsExactly(init, now, probe);
      var ks := KeptIndices(init, now, probe);
      forall t | 0 <= t < |ks| ensures es[ks[t]] == init[ks[t]] { }
      var n := |es| - 1;
      var kept := Evaluate(es[n], now, probe(es[n].issueKey)).Keep?;
      assert KeptIndices(es, now, probe) == ks + (if kept then [n] else []);
      forall j | 0 <= j < |es|
        ensures j in KeptIndices(es, now, probe) <==> Evaluate(es[j], now, probe(es[j].issueKey)).Keep?
      {
        if j < n {
          assert es[j] == init[j];
          assert j != n;
        }
      }
    }
  }

  /** An entry that is not due yet survives the sweep untouched. */
  lemma NotDueSurvives(es: seq<EntryState>, now: int, probe: string -> Probe, j: nat)
    requires j < |es| && now < es[j].scheduledTime
    ensures es[j] in Survivors(es, now, probe)
  {
    SurvivorsExactly(es, now, probe);
    var ks := KeptIndices(es, now, probe);
    var t :| 0 <= t < |ks| && ks[t] == j;
    assert Survivors(es, now, probe)[t] == es[j];
  }

  /** A final transition is asked for exactly for the due entries whose merge requests are all done while the issue is in review. */
  lemma {:induction false} AttemptsExactly(es: seq<EntryState>, now: int, probe: string -> Probe, key: string)
    ensures key in Attempts(es, now, probe) <==>
      exists j :: 0 <= j < |es| && es[j].issueKey == key && now >= es[j].scheduledTime && probe(key) == AllDone(true)
  {
    if es != [] {
      var init := es[..|es| - 1];
      AttemptsExactly(init, now, probe, key);
      if exists j :: 0 <= j < |es| && es[j].issueKey == key && now >= es[j].scheduledTime && probe(key) == AllDone(true) {
        var j :| 0 <= j < |es| && es[j].issueKey == key && now >= es[j].scheduledTime && probe(key) == AllDone(true);
        if j < |es| - 1 {
          assert init[j] == es[j];
        }
      }
      if exists j :: 0 <= j < |init| && init[j].issueKey == key && now >= init[j].scheduledTime && probe(key) == AllDone(true) {
        var j :| 0 <= j < |init| && init[j].issueKey == key && now >= init[j].scheduledTime && probe(key) == AllDone(true);
        assert es[j] == init[j];
      }
    }
  }

  /** Every surviving entry keeps its key, so a sweep never duplicates a key. */
  lemma SurvivorsUniqueKeys(es: seq<EntryState>, now: int, probe: string -> Probe)
    requires UniqueKeys(es)
    ensures UniqueKeys(Survivors(es, now, probe))
  {
    SurvivorsExactly(es, now, probe);
    var ks := KeptIndices(es, now, probe);
    var s := Survivors(es, now, probe);
    forall t, u | 0 <= t < u < |s| ensures s[t].issueKey != s[u].issueKey {
      assert s[t].issueKey == es[ks[t]].issueKey && s[u].issueKey == es[ks[u]].issueKey;
    }
  }

  /** A check never leaves the try counter outside 1 to CheckMergeRequestStatusTries. */
  lemma SurvivorsTriesInRange(es: seq<EntryState>, now: int, probe: string -> Probe)
    requires TriesInRange(es)
    ensures TriesInRange(Survivors(es, now, probe)) && TriesInRange(AdvanceAll(es, now, probe))
  {
    SurvivorsExactly(es, now, probe);
    var ks := KeptIndices(es, now, probe);
    var s := Survivors(es, now, probe);
    forall t | 0 <= t < |s| ensures 1 <= s[t].tries <= CheckMergeRequestStatusTries {
      assert s[t] == Advance(es[ks[t]], now, probe(es[ks[t]].issueKey));
    }
  }

  /**
   * The number of checks an entry gets while its merge requests stay open,
   * each made when it falls due, before it is dropped.
   */
  function ChecksUntilDropped(e: EntryState): nat
    requires 1 <= e.tries <= CheckMergeRequestStatusTries
    decreases CheckMergeRequestStatusTries - e.tries
  {
    match Evaluate(e, e.scheduledTime, StillOpen)
    case Keep(next) => 1 + ChecksUntilDropped(next)
    case _ => 1
  }

  /** An entry on its `tries`th try is checked `CheckMergeRequestStatusTries - tries + 1` more times. */
  lemma {:induction false} ChecksUntilDroppedCount(e: EntryState)
    requires 1 <= e.tries <= CheckMergeRequestStatusTries
    ensures ChecksUntilDropped(e) == CheckMergeRequestStatusTries - e.tries + 1
    decreases CheckMergeRequestStatusTries - e.tries
  {
    if e.tries < CheckMergeRequestStatusTries {
      ChecksUntilDroppedCount(EntryState(e.issueKey, e.tries + 1, e.scheduledTime + DeferInterval));
    }
  }

  /** A freshly registered entry whose merge requests never close is checked exactly ten times. */
  lemma FreshEntryCheckedTenTimes(key: string, now: int)
    ensures ChecksUntilDropped(EntryState(key, 1, now + DeferInterval)) == 10
  {
    ChecksUntilDroppedCount(EntryState(key, 1, now + DeferInterval));
  }

  // ---------------------------------------------------------------------
  // Registration (webhooks/app/jira_update.py:86-93)
  // ---------------------------------------------------------------------

  /** Whether some entry has key `key`. */
  predicate HasKey(ss: seq<EntryState>, key: string) {
    exists j :: 0 <= j < |ss| && ss[j].issueKey == key
  }

  /** Index of the first entry with key `key`. */
  function FirstWithKey(ss: seq<EntryState>, key: string): (j: nat)
    requires HasKey(ss, key)
    ensures j < |ss| && ss[j].issueKey == key && forall i :: 0 <= i < j ==> ss[i].issueKey != key
  {
    if ss[0].issueKey == key then 0
    else
      assert HasKey(ss[1..], key) by {
        var j :| 0 <= j < |ss| && ss[j].issueKey == key;
        assert ss[1..][j - 1].issueKey == key;
      }
      1 + FirstWithKey(ss[1..], key)
  }

  /** A newly registered or rescheduled entry. */
  function Fresh(key: string, now: int): EntryState {
    EntryState(key, 1, now + DeferInterval)
  }

  /** Registering `key`: reset the entry that has it, or append a new one. */
  function Register(ss: seq<EntryState>, key: string, now: int): seq<EntryState> {
    if HasKey(ss, key) then ss[FirstWithKey(ss, key) := Fresh(key, now)] else ss + [Fresh(key, now)]
  }

  /** Registering a key that an entry has resets the first such entry. */
  lemma RegisterExisting(ss: seq<EntryState>, i: nat, key: string, now: int)
    requires HasKey(ss, key) && i == FirstWithKey(ss, key)
    ensures Register(ss, key, now) == ss[i := Fresh(ss[i].issueKey, now)]
  {
  }

  /** Registering a key that no entry has appends a fresh entry. */
  lemma RegisterNew(ss: seq<EntryState>, key: string, now: int)
    requires !HasKey(ss, key)
    ensures Register(ss, key, now) == ss + [Fresh(key, now)]
  {
  }

  /**
   * `cur` is `before` after registering every key of `done`: the entries
   * with those keys reset where they stand, the other old entries as they
   * were, and after them one new entry for each key of `done` that had none.
   */
  predicate RegisteredFrom(before: seq<EntryState>, cur: seq<EntryState>, done: set<string>, now: int) {
    |before| <= |cur| &&
    (forall j :: 0 <= j < |before| ==>
       cur[j] == (if before[j].issueKey in done then Fresh(before[j].issueKey, now) else before[j])) &&
    (forall j :: |before| <= j < |cur| ==>
       cur[j] == Fresh(cur[j].issueKey, now) && cur[j].issueKey in done && !HasKey(before, cur[j].issueKey)) &&
    (forall k :: k in done ==> HasKey(cur, k))
  }

  lemma RegisteredFromStart(before: seq<EntryState>, now: int)
    ensures RegisteredFrom(before, before, {}, now)
  {
  }

  /** Resetting an entry in place keeps keys unique and counters in range. */
  lemma ResetValid(ss: seq<EntryState>, i: nat, now: int)
    requires i < |ss| && UniqueKeys(ss) && TriesInRange(ss)
    ensures UniqueKeys(ss[i := Fresh(ss[i].issueKey, now)]) && TriesInRange(ss[i := Fresh(ss[i].issueKey, now)])
  {
  }

  /** Appending a new entry for a key no entry has keeps keys unique and counters in range. */
  lemma AppendFreshValid(ss: seq<EntryState>, key: string, now: int)
    requires UniqueKeys(ss) && TriesInRange(ss) && !HasKey(ss, key)
    ensures UniqueKeys(ss + [Fresh(key, now)]) && TriesInRange(ss + [Fresh(key, now)])
  {
  }

  /** Registering one more key keeps the relation, and keeps keys unique and counters in range. */
  lemma RegisterStep(before: seq<EntryState>, cur: seq<EntryState>, done: set<string>, key: string, now: int)
    requires RegisteredFrom(before, cur, done, now) && key !in done
    requires UniqueKeys(cur) && TriesInRange(cur)
    ensures RegisteredFrom(before, Register(cur, key, now), done + {key}, now)
    ensures UniqueKeys(Register(cur, key, now)) && TriesInRange(Register(cur, key, now))
  {
    var next := Register(cur, key, now);
    if HasKey(cur, key) {
      var f := FirstWithKey(cur, key);
      forall j | 0 <= j < |before|
        ensures next[j] == (if before[j].issueKey in done + {key} then Fresh(before[j].issueKey, now) else before[j])
      {
        if j == f {
          assert before[j].issueKey == key;
        }
      }
      forall k | k in done + {key} ensures HasKey(next, k) {
        if k == key {
          assert next[f].issueKey == key;
        } else {
          var j :| 0 <= j < |cur| && cur[j].issueKey == k;
          assert next[j].issueKey == k;
        }
      }
    } else {
      forall j | 0 <= j < |before| ensures before[j].issueKey != key {
        assert cur[j].issueKey == before[j].issueKey;
      }
      assert !HasKey(before, key);
      forall k | k in done + {key} ensures HasKey(next, k) {
        if k == key {
          assert next[|cur|].issueKey == key;
        } else {
          var j :| 0 <= j < |cur| && cur[j].issueKey == k;
          assert next[j].issueKey == k;
        }
      }
    }
  }
}
