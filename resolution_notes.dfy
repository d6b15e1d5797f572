/**
 * The "Resolution Notes" text of an issue, as webhooks/app/utils.py
 * reads, merges and writes it: a run of `[id]: text` entries, one per
 * merge request, each written out followed by a newline.
 */
module ResolutionNotes {
  import opened Wrappers
  import IssueKeys

  /** One `[id]: text` entry of a Resolution Notes field. */
  datatype Entry = Entry(id: string, text: string)

  // ---------------------------------------------------------------------
  // split_resolution_notes_text (webhooks/app/utils.py:3-5): findall of
  // `\[(\d+)\]:\s*(.*?)(?=\n\[|\Z)` with DOTALL, written as a scanner.
  // ---------------------------------------------------------------------

  /** Whether `\n[` starts at index `q`: the place where the lazy text of an entry stops. */
  predicate BreakAt(s: string, q: nat) {
    q + 1 < |s| && s[q] == '\n' && s[q + 1] == '['
  }

  /** A text that holds no `\n[`. */
  predicate NoBreak(t: string) {
    forall j :: 0 <= j < |t| - 1 ==> !(t[j] == '\n' && t[j + 1] == '[')
  }

  /** An entry id: one or more digits. */
  predicate IsId(id: string) {
    |id| > 0 && forall j :: 0 <= j < |id| ==> IssueKeys.IsDigit(id[j])
  }

  /** End of the run of whitespace that starts at `i` (the greedy `\s*`). */
  function SpacesEnd(s: string, i: nat): (r: nat)
    requires i <= |s|
    ensures i <= r <= |s|
    ensures r < |s| ==> !IssueKeys.IsSpace(s[r])
    decreases |s| - i
  {
    if i == |s| || !IssueKeys.IsSpace(s[i]) then i else SpacesEnd(s, i + 1)
  }

  /** Where the lazy `(.*?)` that starts at `t` stops: the first `\n[`, or the end. */
  function TextEnd(s: string, t: nat): (r: nat)
    requires t <= |s|
    ensures t <= r <= |s|
    ensures r == |s| || BreakAt(s, r)
    ensures forall q :: t <= q < r ==> !BreakAt(s, q)
    decreases |s| - t
  {
    if t == |s| || BreakAt(s, t) then t else TextEnd(s, t + 1)
  }

  /** Index just past a `[digits]:` header that starts at `p`, or 0 when none starts there. */
  function HeaderEnd(s: string, p: nat): (r: nat)
    requires p <= |s|
    ensures r == 0 || (p + 4 <= r <= |s| && s[p] == '[' && s[r - 2] == ']' && s[r - 1] == ':')
  {
    if p < |s| && s[p] == '[' && IssueKeys.DigitsEnd(s, p + 1) > p + 1
       && IssueKeys.DigitsEnd(s, p + 1) + 1 < |s|
       && s[IssueKeys.DigitsEnd(s, p + 1)] == ']' && s[IssueKeys.DigitsEnd(s, p + 1) + 1] == ':'
    then IssueKeys.DigitsEnd(s, p + 1) + 2
    else 0
  }

  /** What stands between the brackets of a header is an id. */
  lemma HeaderId(s: string, p: nat)
    requires p <= |s| && HeaderEnd(s, p) > 0
    ensures IsId(IssueKeys.Substring(s, p + 1, HeaderEnd(s, p) - 2))
  {
    IssueKeys.DigitsRun(s, p + 1);
  }

  /**
   * The entries found from index `p` on.  A match resumes the search where
   * its text stopped; a failed match moves on by one character.
   */
  function Scan(s: string, p: nat): seq<Entry>
    requires p <= |s|
    decreases |s| - p
  {
    if p == |s| then []
    else if HeaderEnd(s, p) > 0 then
      var t := SpacesEnd(s, HeaderEnd(s, p));
      var e := TextEnd(s, t);
      [Entry(IssueKeys.Substring(s, p + 1, HeaderEnd(s, p) - 2), IssueKeys.Substring(s, t, e))] + Scan(s, e)
    else Scan(s, p + 1)
  }

  function Split(notes: string): seq<Entry> {
    Scan(notes, 0)
  }

  /** One step of the scanner over a header, its whitespace and its text. */
  lemma ScanStep(s: string, p: nat, h: nat, t: nat, n: nat)
    requires p < |s| && HeaderEnd(s, p) == h > 0 && SpacesEnd(s, h) == t && TextEnd(s, t) == n
    ensures Scan(s, p) == [Entry(IssueKeys.Substring(s, p + 1, h - 2), IssueKeys.Substring(s, t, n))] + Scan(s, n)
  {
  }

  /** A position that does not open a bracket starts no entry. */
  lemma ScanSkip(s: string, q: nat)
    requires q < |s| && s[q] != '['
    ensures Scan(s, q) == Scan(s, q + 1)
  {
  }

  /**
   * Every entry read has a digit id, and a text that holds no `\n[` and
   * does not start with whitespace.
   */
  lemma {:induction false} ScanWellFormed(s: string, p: nat)
    requires p <= |s|
    ensures forall k :: 0 <= k < |Scan(s, p)| ==>
              IsId(Scan(s, p)[k].id) && NoBreak(Scan(s, p)[k].text) &&
              (Scan(s, p)[k].text == [] || !IssueKeys.IsSpace(Scan(s, p)[k].text[0]))
    decreases |s| - p
  {
    if p < |s| {
      var h := HeaderEnd(s, p);
      if h > 0 {
        var t := SpacesEnd(s, h);
        var e := TextEnd(s, t);
        ScanStep(s, p, h, t, e);
        ScanWellFormed(s, e);
        HeaderId(s, p);
        var text := IssueKeys.Substring(s, t, e);
        forall j | 0 <= j < |text| - 1 ensures !(text[j] == '\n' && text[j + 1] == '[') {
          assert !BreakAt(s, t + j);
        }
      } else {
        ScanWellFormed(s, p + 1);
      }
    }
  }

  // ---------------------------------------------------------------------
  // Writing entries back: `[id]: text\n` (webhooks/app/utils.py:19)
  // ---------------------------------------------------------------------

  function Render(e: Entry): string {
    "[" + e.id + "]: " + e.text + "\n"
  }

  function RenderAll(es: seq<Entry>): string {
    if es == [] then [] else Render(es[0]) + RenderAll(es[1..])
  }

  /** An entry that reads back as itself: a digit id and a text that stops where it should. */
  predicate WellFormed(e: Entry) {
    IsId(e.id) && |e.text| > 0 && !IssueKeys.IsSpace(e.text[0]) && NoBreak(e.text)
  }

  /** The lazy text of the last entry runs to the end and so takes the closing newline with it. */
  function LastWithNewline(es: seq<Entry>): seq<Entry>
    requires es != []
  {
    es[..|es| - 1] + [Entry(es[|es| - 1].id, es[|es| - 1].text + "\n")]
  }

  /** Positions inside a rendered entry `e` written at index `p` of `s`. */
  lemma RenderedAt(s: string, p: nat, e: Entry)
    requires IssueKeys.HasAt(s, p, Render(e))
    ensures |Render(e)| == |e.id| + |e.text| + 5
    ensures s[p] == '[' && s[p + |e.id| + 1] == ']' && s[p + |e.id| + 2] == ':' && s[p + |e.id| + 3] == ' '
    ensures IssueKeys.HasAt(s, p + 1, e.id) && IssueKeys.HasAt(s, p + |e.id| + 4, e.text)
    ensures s[p + |Render(e)| - 1] == '\n'
  {
    var r := Render(e);
    assert r[0] == '[' && r[|e.id| + 1] == ']' && r[|e.id| + 2] == ':' && r[|e.id| + 3] == ' ';
    forall j | 0 <= j < |e.id| ensures s[p + 1 + j] == e.id[j] {
      assert r[1 + j] == e.id[j];
    }
    forall j | 0 <= j < |e.text| ensures s[p + |e.id| + 4 + j] == e.text[j] {
      assert r[|e.id| + 4 + j] == e.text[j];
    }
    assert r[|r| - 1] == '\n';
  }

  /** The header of a rendered entry reads back as its id, and its whitespace as one space. */
  lemma HeaderOfRendered(s: string, p: nat, e: Entry)
    requires IsId(e.id) && |e.text| > 0 && !IssueKeys.IsSpace(e.text[0]) && IssueKeys.HasAt(s, p, Render(e))
    ensures HeaderEnd(s, p) == p + |e.id| + 3
    ensures SpacesEnd(s, p + |e.id| + 3) == p + |e.id| + 4
  {
    RenderedAt(s, p, e);
    var d := IssueKeys.DigitsEnd(s, p + 1);
    IssueKeys.DigitsRun(s, p + 1);
    forall j | p + 1 <= j < p + 1 + |e.id| ensures IssueKeys.IsDigit(s[j]) {
      assert s[p + 1 + (j - p - 1)] == e.id[j - p - 1];
    }
    assert d == p + 1 + |e.id|;
    assert s[p + |e.id| + 4 + 0] == e.text[0];
  }

  /** The text of a rendered entry stops at its closing newline when another entry follows. */
  lemma TextOfRendered(s: string, p: nat, e: Entry)
    requires WellFormed(e) && IssueKeys.HasAt(s, p, Render(e))
    requires p + |Render(e)| == |s| || s[p + |Render(e)|] == '['
    ensures p + |Render(e)| < |s| ==> TextEnd(s, p + |e.id| + 4) == p + |Render(e)| - 1
    ensures p + |Render(e)| == |s| ==> TextEnd(s, p + |e.id| + 4) == |s|
  {
    RenderedAt(s, p, e);
    var t := p + |e.id| + 4;
    var n := p + |Render(e)| - 1;
    assert n == t + |e.text|;
    forall q | t <= q < n ensures !BreakAt(s, q) {
      if q < n - 1 {
        assert s[t + (q - t)] == e.text[q - t] && s[t + (q + 1 - t)] == e.text[q + 1 - t];
      }
    }
    if p + |Render(e)| < |s| {
      assert BreakAt(s, n);
      TextEndAt(s, t, n);
    } else {
      assert !BreakAt(s, n);
      TextEndAt(s, t, |s|);
    }
  }

  /** `TextEnd` is the first break: any stop point with no break before it is the one. */
  lemma TextEndAt(s: string, t: nat, n: nat)
    requires t <= n <= |s| && (n == |s| || BreakAt(s, n))
    requires forall q :: t <= q < n ==> !BreakAt(s, q)
    ensures TextEnd(s, t) == n
  {
  }

  /** One step of the scanner over an entry whose text is closed by a newline. */
  lemma ScanEntry(s: string, p: nat, h: nat, t: nat, n: nat, e: Entry)
    requires p < |s| && HeaderEnd(s, p) == h > 0 && SpacesEnd(s, h) == t && TextEnd(s, t) == n
    requires IssueKeys.Substring(s, p + 1, h - 2) == e.id && IssueKeys.Substring(s, t, n) == e.text
    requires n < |s| && s[n] == '\n'
    ensures Scan(s, p) == [e] + Scan(s, n + 1)
  {
    ScanStep(s, p, h, t, n);
    ScanSkip(s, n);
  }

  /** A rendered entry followed by another one reads back as itself. */
  lemma ScanRendered(s: string, p: nat, e: Entry)
    requires WellFormed(e) && IssueKeys.HasAt(s, p, Render(e)) && p + |Render(e)| < |s|
    requires s[p + |Render(e)|] == '['
    ensures Scan(s, p) == [e] + Scan(s, p + |Render(e)|)
  {
    HeaderOfRendered(s, p, e);
    TextOfRendered(s, p, e);
    RenderedAt(s, p, e);
    var h := p + |e.id| + 3;
    var t := p + |e.id| + 4;
    var n := p + |Render(e)| - 1;
    IssueKeys.HasAtSubstring(s, p + 1, e.id);
    IssueKeys.HasAtSubstring(s, t, e.text);
    assert h - 2 == p + 1 + |e.id| && n == t + |e.text|;
    ScanEntry(s, p, h, t, n, e);
    assert n + 1 == p + |Render(e)|;
  }

  /** One step of the scanner over an entry whose text runs to the end. */
  lemma ScanLast(s: string, p: nat, h: nat, t: nat, id: string, text: string)
    requires p < |s| && HeaderEnd(s, p) == h > 0 && SpacesEnd(s, h) == t && TextEnd(s, t) == |s|
    requires IssueKeys.Substring(s, p + 1, h - 2) == id && IssueKeys.Substring(s, t, |s|) == text
    ensures Scan(s, p) == [Entry(id, text)]
  {
    ScanStep(s, p, h, t, |s|);
  }

  /** A rendered entry at the very end reads back with one more newline on its text. */
  lemma ScanRenderedLast(s: string, p: nat, e: Entry)
    requires WellFormed(e) && IssueKeys.HasAt(s, p, Render(e)) && p + |Render(e)| == |s|
    ensures Scan(s, p) == [Entry(e.id, e.text + "\n")]
  {
    HeaderOfRendered(s, p, e);
    TextOfRendered(s, p, e);
    RenderedAt(s, p, e);
    var h := p + |e.id| + 3;
    var t := p + |e.id| + 4;
    var text := e.text + "\n";
    forall j | 0 <= j < |text| ensures s[t + j] == text[j] {
      if j < |e.text| {
        assert s[p + |e.id| + 4 + j] == e.text[j];
      }
    }
    IssueKeys.HasAtSubstring(s, p + 1, e.id);
    IssueKeys.HasAtSubstring(s, t, text);
    assert h - 2 == p + 1 + |e.id| && t + |text| == |s|;
    ScanLast(s, p, h, t, e.id, text);
  }

  /** Text written at `p` as two pieces holds each piece at its place. */
  lemma HasAtConcat(s: string, p: nat, a: string, b: string)
    requires IssueKeys.HasAt(s, p, a + b)
    ensures IssueKeys.HasAt(s, p, a) && IssueKeys.HasAt(s, p + |a|, b)
  {
    forall j | 0 <= j < |a| ensures s[p + j] == a[j] {
      assert (a + b)[j] == a[j];
    }
    forall j | 0 <= j < |b| ensures s[p + |a| + j] == b[j] {
      assert (a + b)[|a| + j] == b[j];
    }
  }

  lemma LastWithNewlineCons(es: seq<Entry>)
    requires |es| > 1
    ensures LastWithNewline(es) == [es[0]] + LastWithNewline(es[1..])
  {
    assert es[1..][..|es| - 2] == es[1..|es| - 1];
  }

  lemma RenderAllStartsWithBracket(es: seq<Entry>)
    requires es != []
    ensures |RenderAll(es)| > 0 && RenderAll(es)[0] == '['
  {
    assert RenderAll(es) == Render(es[0]) + RenderAll(es[1..]);
  }

  /**
   * Round trip: well-formed entries written out and read back come back
   * in order, except that the last text has gained the closing newline.
   */
  lemma {:induction false} ScanRenderAll(s: string, p: nat, es: seq<Entry>)
    requires es != [] && forall k :: 0 <= k < |es| ==> WellFormed(es[k])
    requires IssueKeys.HasAt(s, p, RenderAll(es)) && p + |RenderAll(es)| == |s|
    ensures Scan(s, p) == LastWithNewline(es)
    decreases |es|
  {
    var r := Render(es[0]);
    var rest := RenderAll(es[1..]);
    assert RenderAll(es) == r + rest;
    HasAtConcat(s, p, r, rest);
    if |es| == 1 {
      assert rest == [];
      ScanRenderedLast(s, p, es[0]);
    } else {
      RenderAllStartsWithBracket(es[1..]);
      assert s[p + |r| + 0] == rest[0];
      ScanRendered(s, p, es[0]);
      ScanRenderAll(s, p + |r|, es[1..]);
      LastWithNewlineCons(es);
    }
  }

  lemma SplitRenderAll(es: seq<Entry>)
    requires es != [] && forall k :: 0 <= k < |es| ==> WellFormed(es[k])
    ensures Split(RenderAll(es)) == LastWithNewline(es)
  {
    var s := RenderAll(es);
    assert forall j :: 0 <= j < |s| ==> s[0 + j] == s[j];
    ScanRenderAll(s, 0, es);
  }

  // ---------------------------------------------------------------------
  // update_resolution_notes_text (webhooks/app/utils.py:7-24)
  // ---------------------------------------------------------------------

  /** What the loop writes for one parsed entry: the new notes for a matching id, the entry itself otherwise. */
  function Piece(e: Entry, mrId: string, mrNotes: string): string {
    if e.id == mrId then mrNotes else Render(e)
  }

  /** What the loop writes for the entries `es`, in order. */
  function Pieces(es: seq<Entry>, mrId: string, mrNotes: string): string {
    if es == [] then [] else Piece(es[0], mrId, mrNotes) + Pieces(es[1..], mrId, mrNotes)
  }

  predicate HasId(es: seq<Entry>, id: string) {
    exists k :: 0 <= k < |es| && es[k].id == id
  }

  /**
   * The merged notes: the entries in order, each one whose id is `mrId`
   * replaced by the new notes, and the new notes appended when none was.
   */
  function MergeNotes(es: seq<Entry>, mrId: string, mrNotes: string): string {
    Pieces(es, mrId, mrNotes) + (if HasId(es, mrId) then [] else mrNotes)
  }

  /**
   * update_resolution_notes_text.  Absent or empty notes give the new notes
   * as they are; notes in which no entry can be read give None.
   */
  method UpdateResolutionNotesText(notes: Option<string>, mrId: string, mrNotes: string) returns (r: Option<string>)
    ensures notes == None || notes == Some([]) ==> r == Some(mrNotes)
    ensures notes.Some? && notes.value != [] && Split(notes.value) == [] ==> r == None
    ensures notes.Some? && notes.value != [] && Split(notes.value) != [] ==>
              r == Some(MergeNotes(Split(notes.value), mrId, mrNotes))
  {
    if notes == None || notes.value == [] {
      return Some(mrNotes);
    }
    var entries := Split(notes.value);
    if entries == [] {
      return None;
    }
    var merged := MergeEntries(entries, mrId, mrNotes);
    return Some(merged);
  }

  /** The loop of update_resolution_notes_text over the entries read from the notes. */
  method MergeEntries(entries: seq<Entry>, mrId: string, mrNotes: string) returns (acc: string)
    ensures acc == MergeNotes(entries, mrId, mrNotes)
  {
    acc := [];
    var matched := false;
    var k := 0;
    while k < |entries|
      invariant 0 <= k <= |entries|
      invariant acc == Pieces(entries[..k], mrId, mrNotes)
      invariant matched == HasId(entries[..k], mrId)
    {
      HasIdSnoc(entries, k, mrId);
      PiecesSnoc(entries, k, mrId, mrNotes);
      if entries[k].id == mrId {
        matched := true;
        acc := acc + mrNotes;
      } else {
        acc := acc + Render(entries[k]);
      }
      k := k + 1;
    }
    assert entries[..k] == entries;
    if !matched {
      acc := acc + mrNotes;
    } else {
      assert acc + [] == acc;
    }
  }

  lemma {:induction false} RenderAllAppend(a: seq<Entry>, b: seq<Entry>)
    ensures RenderAll(a + b) == RenderAll(a) + RenderAll(b)
    decreases |a|
  {
    if a == [] {
      assert a + b == b;
    } else {
      assert (a + b)[1..] == a[1..] + b;
      RenderAllAppend(a[1..], b);
    }
  }

  lemma HasIdSnoc(es: seq<Entry>, k: nat, id: string)
    requires k < |es|
    ensures HasId(es[..k + 1], id) <==> HasId(es[..k], id) || es[k].id == id
  {
    if HasId(es[..k + 1], id) && es[k].id != id {
      var j :| 0 <= j < k + 1 && es[..k + 1][j].id == id;
      assert es[..k][j].id == id;
    }
    if HasId(es[..k], id) {
      var j :| 0 <= j < k && es[..k][j].id == id;
      assert es[..k + 1][j].id == id;
    }
    if es[k].id == id {
      assert es[..k + 1][k].id == id;
    }
  }

  lemma PiecesSnoc(es: seq<Entry>, k: nat, mrId: string, mrNotes: string)
    requires k < |es|
    ensures Pieces(es[..k + 1], mrId, mrNotes) == Pieces(es[..k], mrId, mrNotes) + Piece(es[k], mrId, mrNotes)
  {
    assert es[..k + 1] == es[..k] + [es[k]];
    PiecesAppend(es[..k], [es[k]], mrId, mrNotes);
    assert [es[k]][1..] == [];
  }

  lemma {:induction false} PiecesAppend(a: seq<Entry>, b: seq<Entry>, mrId: string, mrNotes: string)
    ensures Pieces(a + b, mrId, mrNotes) == Pieces(a, mrId, mrNotes) + Pieces(b, mrId, mrNotes)
    decreases |a|
  {
    if a == [] {
      assert a + b == b;
    } else {
      assert (a + b)[1..] == a[1..] + b;
      PiecesAppend(a[1..], b, mrId, mrNotes);
    }
  }

  /** With no entry of id `mrId`, the loop writes every entry back as it was. */
  lemma {:induction false} PiecesNoMatch(es: seq<Entry>, mrId: string, mrNotes: string)
    requires forall k :: 0 <= k < |es| ==> es[k].id != mrId
    ensures Pieces(es, mrId, mrNotes) == RenderAll(es)
    decreases |es|
  {
    if es != [] {
      PiecesNoMatch(es[1..], mrId, mrNotes);
    }
  }

  /** No entry of the merge request yet: every entry is kept in order and the new notes come last. */
  lemma MergeNotesAppends(es: seq<Entry>, mrId: string, mrNotes: string)
    requires forall k :: 0 <= k < |es| ==> es[k].id != mrId
    ensures MergeNotes(es, mrId, mrNotes) == RenderAll(es) + mrNotes
  {
    PiecesNoMatch(es, mrId, mrNotes);
  }

  /** The entry of the merge request is replaced where it stands; the others are kept in order. */
  lemma MergeNotesReplaces(es: seq<Entry>, k: nat, mrId: string, mrNotes: string)
    requires k < |es| && es[k].id == mrId
    requires forall j :: 0 <= j < |es| && j != k ==> es[j].id != mrId
    ensures MergeNotes(es, mrId, mrNotes) == RenderAll(es[..k]) + mrNotes + RenderAll(es[k + 1..])
  {
    var before, after := es[..k], es[k + 1..];
    assert es == before + [es[k]] + after;
    PiecesAppend(before + [es[k]], after, mrId, mrNotes);
    PiecesAppend(before, [es[k]], mrId, mrNotes);
    assert Pieces([es[k]], mrId, mrNotes) == mrNotes by {
      assert [es[k]][1..] == [];
    }
    PiecesNoMatch(before, mrId, mrNotes);
    PiecesNoMatch(after, mrId, mrNotes);
  }

  /**
   * Two entries of the merge request: each is replaced where it stands, so
   * the new notes are written twice and nothing is appended.
   */
  lemma MergeNotesReplacesBoth(es: seq<Entry>, i: nat, j: nat, mrId: string, mrNotes: string)
    requires i < j < |es| && es[i].id == mrId && es[j].id == mrId
    requires forall k :: 0 <= k < |es| && k != i && k != j ==> es[k].id != mrId
    ensures MergeNotes(es, mrId, mrNotes) ==
              RenderAll(es[..i]) + mrNotes + RenderAll(es[i + 1..j]) + mrNotes + RenderAll(es[j + 1..])
  {
    var front, after := es[..j], es[j + 1..];
    PiecesAround(es, j, mrId, mrNotes);
    NoMatchBetween(es, j + 1, |es|, mrId, i, j);
    PiecesNoMatch(after, mrId, mrNotes);
    PiecesAround(front, i, mrId, mrNotes);
    assert front[..i] == es[..i] && front[i + 1..] == es[i + 1..j];
    NoMatchBetween(es, 0, i, mrId, i, j);
    PiecesNoMatch(es[..i], mrId, mrNotes);
    NoMatchBetween(es, i + 1, j, mrId, i, j);
    PiecesNoMatch(es[i + 1..j], mrId, mrNotes);
    assert HasId(es, mrId) by {
      assert es[i].id == mrId;
    }
  }

  /** The loop's output around entry `k`. */
  lemma PiecesAround(es: seq<Entry>, k: nat, mrId: string, mrNotes: string)
    requires k < |es|
    ensures Pieces(es, mrId, mrNotes) ==
              Pieces(es[..k], mrId, mrNotes) + Piece(es[k], mrId, mrNotes) + Pieces(es[k + 1..], mrId, mrNotes)
  {
    assert es == es[..k + 1] + es[k + 1..];
    PiecesAppend(es[..k + 1], es[k + 1..], mrId, mrNotes);
    PiecesSnoc(es, k, mrId, mrNotes);
  }

  /** A slice that avoids both `i` and `j` holds no entry of the merge request. */
  lemma NoMatchBetween(es: seq<Entry>, lo: nat, hi: nat, mrId: string, i: nat, j: nat)
    requires lo <= hi <= |es|
    requires forall k :: 0 <= k < |es| && k != i && k != j ==> es[k].id != mrId
    requires i < j && (hi <= i || lo > j || (lo > i && hi <= j))
    ensures forall k :: 0 <= k < |es[lo..hi]| ==> es[lo..hi][k].id != mrId
  {
    forall k | 0 <= k < |es[lo..hi]| ensures es[lo..hi][k].id != mrId {
      assert es[lo..hi][k] == es[lo + k] && lo + k != i && lo + k != j;
    }
  }

  /** Two texts without `\n[` joined where no `\n[` forms hold none either. */
  lemma NoBreakConcat(a: string, b: string)
    requires NoBreak(a) && NoBreak(b)
    requires a == [] || b == [] || !(a[|a| - 1] == '\n' && b[0] == '[')
    ensures NoBreak(a + b)
  {
    var c := a + b;
    forall j | 0 <= j < |c| - 1 ensures !(c[j] == '\n' && c[j + 1] == '[') {
      if j + 1 < |a| {
        assert c[j] == a[j] && c[j + 1] == a[j + 1];
      } else if j >= |a| {
        assert c[j] == b[j - |a|] && c[j + 1] == b[j + 1 - |a|];
      }
    }
  }

  lemma LastWithNewlineWellFormed(es: seq<Entry>)
    requires es != [] && forall k :: 0 <= k < |es| ==> WellFormed(es[k])
    ensures |LastWithNewline(es)| == |es|
    ensures forall k :: 0 <= k < |es| ==> WellFormed(LastWithNewline(es)[k]) && LastWithNewline(es)[k].id == es[k].id
  {
    NoBreakConcat(es[|es| - 1].text, "\n");
  }

  /** Writing entries with one of them swapped for `m`. */
  lemma RenderAllUpdate(es: seq<Entry>, k: nat, m: Entry)
    requires k < |es|
    ensures RenderAll(es[k := m]) == RenderAll(es[..k]) + Render(m) + RenderAll(es[k + 1..])
  {
    assert es[k := m] == es[..k] + [m] + es[k + 1..];
    RenderAllAppend(es[..k] + [m], es[k + 1..]);
    RenderAllAppend(es[..k], [m]);
    assert RenderAll([m]) == Render(m) + RenderAll([]);
  }

  /** Reading back a text known to be written from well-formed entries. */
  lemma SplitOf(s: string, es: seq<Entry>)
    requires es != [] && forall k :: 0 <= k < |es| ==> WellFormed(es[k])
    requires s == RenderAll(es)
    ensures Split(s) == LastWithNewline(es)
  {
    SplitRenderAll(es);
  }

  /** Entries read from notes are well formed when none has an empty text. */
  lemma SplitWellFormed(notes: string)
    requires forall k :: 0 <= k < |Split(notes)| ==> Split(notes)[k].text != []
    ensures forall k :: 0 <= k < |Split(notes)| ==> WellFormed(Split(notes)[k])
  {
    ScanWellFormed(notes, 0);
  }

  /**
   * Notes whose entries all have a text, updated with a well-formed entry
   * whose id none of them has: the result reads back as the same entries in
   * the same order, then the new one with the closing newline on its text.
   */
  lemma UpdateAppendsEntry(notes: string, m: Entry)
    requires Split(notes) != [] && WellFormed(m)
    requires forall k :: 0 <= k < |Split(notes)| ==> Split(notes)[k].text != [] && Split(notes)[k].id != m.id
    ensures Split(MergeNotes(Split(notes), m.id, Render(m))) == Split(notes) + [Entry(m.id, m.text + "\n")]
  {
    var es := Split(notes);
    SplitWellFormed(notes);
    MergeNotesAppends(es, m.id, Render(m));
    RenderAllAppend(es, [m]);
    assert RenderAll([m]) == Render(m) + RenderAll([]);
    SplitOf(MergeNotes(es, m.id, Render(m)), es + [m]);
    assert (es + [m])[..|es|] == es;
  }

  /**
   * Notes whose entries all have a text, updated with a well-formed entry
   * whose id only the `k`th of them has: the result reads back with that
   * entry replaced where it stood and the others as they were, except that
   * the last text gains one more closing newline.
   */
  lemma UpdateReplacesEntry(notes: string, k: nat, m: Entry)
    requires k < |Split(notes)| && WellFormed(m) && Split(notes)[k].id == m.id
    requires forall j :: 0 <= j < |Split(notes)| ==> Split(notes)[j].text != []
    requires forall j :: 0 <= j < |Split(notes)| && j != k ==> Split(notes)[j].id != m.id
    ensures Split(MergeNotes(Split(notes), m.id, Render(m))) == LastWithNewline(Split(notes)[k := m])
  {
    var es := Split(notes);
    SplitWellFormed(notes);
    MergeNotesReplaces(es, k, m.id, Render(m));
    RenderAllUpdate(es, k, m);
    SplitOf(MergeNotes(es, m.id, Render(m)), es[k := m]);
  }

  // ---------------------------------------------------------------------
  // create_merge_request_resolution_notes, get_merge_request_state_symbol
  // (webhooks/app/utils.py:26-40)
  // ---------------------------------------------------------------------

  /** `(/)` for a merged merge request, `(x)` for one closed unmerged, `(?)` for one still open. */
  function StateSymbol(merged: bool, closed: bool): (r: string)
    ensures merged <==> r == "(/)"
    ensures !merged && closed <==> r == "(x)"
    ensures !merged && !closed <==> r == "(?)"
  {
    if merged then "(/)" else if closed then "(x)" else "(?)"
  }

  /** The first line's text: a Jira link `[title|url]` and the state symbol. */
  function Summary(merged: bool, closed: bool, title: string, url: string): string {
    "[" + title + "|" + url + "] " + StateSymbol(merged, closed)
  }

  /**
   * The entry of one merge request: its summary line, then, for a merge
   * request that is not closed and has a description, the description and
   * a blank line.
   */
  function CreateNotes(merged: bool, closed: bool, id: string, title: string, url: string, description: string): string {
    var notes := "[" + id + "]: [" + title + "|" + url + "] " + StateSymbol(merged, closed) + "\n";
    if !closed && description != [] then notes + description + "\n\n" else notes
  }

  /**
   * A created entry always opens with its summary line; the description and
   * a blank line follow exactly when the merge request is not closed and the
   * description is not empty.
   */
  lemma CreateNotesShape(merged: bool, closed: bool, id: string, title: string, url: string, description: string)
    ensures var r := CreateNotes(merged, closed, id, title, url, description);
            var head := Render(Entry(id, Summary(merged, closed, title, url)));
              |r| >= |head| && r[..|head|] == head &&
              (!closed && description != [] <==> |r| > |head|) &&
              (|r| > |head| ==> r[|head|..] == description + "\n\n")
  {
    var head := Render(Entry(id, Summary(merged, closed, title, url)));
    assert head == "[" + id + "]: [" + title + "|" + url + "] " + StateSymbol(merged, closed) + "\n";
    var r := CreateNotes(merged, closed, id, title, url, description);
    if !closed && description != [] {
      assert r == head + (description + "\n\n");
    }
  }

  lemma SummaryNoBreak(merged: bool, closed: bool, title: string, url: string)
    requires NoBreak(title) && NoBreak(url)
    ensures NoBreak(Summary(merged, closed, title, url))
  {
    var tail := "] " + StateSymbol(merged, closed);
    assert NoBreak(tail);
    NoBreakConcat("[", title);
    NoBreakConcat("[" + title, "|");
    NoBreakConcat("[" + title + "|", url);
    NoBreakConcat("[" + title + "|" + url, tail);
  }

  /** A created entry is one entry written out, its text opening with the summary's `[`. */
  lemma CreatedRender(merged: bool, closed: bool, id: string, title: string, url: string, description: string)
    returns (e: Entry)
    ensures e.id == id && CreateNotes(merged, closed, id, title, url, description) == Render(e)
    ensures |e.text| > 0 && e.text[0] == '['
    ensures !closed && description != [] ==> e.text == Summary(merged, closed, title, url) + "\n" + description + "\n"
    ensures closed || description == [] ==> e.text == Summary(merged, closed, title, url)
  {
    var summary := Summary(merged, closed, title, url);
    CreateNotesShape(merged, closed, id, title, url, description);
    var r := CreateNotes(merged, closed, id, title, url, description);
    var head := Render(Entry(id, summary));
    if !closed && description != [] {
      e := Entry(id, summary + "\n" + description + "\n");
      assert r == head + description + "\n\n";
      assert Render(e) == head + description + "\n\n";
    } else {
      e := Entry(id, summary);
      assert r == head;
    }
    assert e.text[0] == summary[0];
  }

  /**
   * A created entry is one well-formed entry written out, given a digit id,
   * a title and a url without `\n[`, and a description that is empty, holds
   * no `\n[` and does not open with `[` (or a closed merge request, whose
   * description is not written).
   */
  lemma CreatedEntry(merged: bool, closed: bool, id: string, title: string, url: string, description: string)
    returns (e: Entry)
    requires IsId(id) && NoBreak(title) && NoBreak(url)
    requires closed || description == [] || (NoBreak(description) && description[0] != '[')
    ensures WellFormed(e) && e.id == id && CreateNotes(merged, closed, id, title, url, description) == Render(e)
  {
    SummaryNoBreak(merged, closed, title, url);
    e := CreatedRender(merged, closed, id, title, url, description);
    if !closed && description != [] {
      DescribedNoBreak(Summary(merged, closed, title, url), description);
    }
  }

  lemma DescribedNoBreak(summary: string, description: string)
    requires NoBreak(summary) && NoBreak(description) && description != [] && description[0] != '['
    ensures NoBreak(summary + "\n" + description + "\n")
  {
    NoBreakConcat(summary, "\n");
    NoBreakConcat(summary + "\n", description);
    NoBreakConcat(summary + "\n" + description, "\n");
  }

  /**
   * A created entry reads back as a single entry with its id, as long as its
   * title, url and description do not hold `\n[` and the description does not
   * open with `[`.
   */
  lemma CreateNotesReadsBack(merged: bool, closed: bool, id: string, title: string, url: string, description: string)
    requires IsId(id) && NoBreak(title) && NoBreak(url)
    requires closed || description == [] || (NoBreak(description) && description[0] != '[')
    ensures var r := CreateNotes(merged, closed, id, title, url, description);
              |r| >= |id| + 4 && Split(r) == [Entry(id, r[|id| + 4..])]
  {
    var r := CreateNotes(merged, closed, id, title, url, description);
    var e := CreatedEntry(merged, closed, id, title, url, description);
    assert RenderAll([e]) == Render(e) + RenderAll([]);
    SplitOf(r, [e]);
    assert r[|id| + 4..] == e.text + "\n";
  }

  // ---------------------------------------------------------------------
  // A description line that opens with `[` (webhooks/app/utils.py:3-5,
  // 26-33): the split stops a text at every `\n[`, so such a line cuts
  // the entry short and what follows it, which opens no header, is lost.
  // ---------------------------------------------------------------------

  /**
   * As written: a description `[d]` is cut off when its entry is read back,
   * and the next update for another merge request writes the notes back
   * without it.
   */
  lemma CreatedDescriptionCutShort(other: string)
    ensures Split(CreateNotes(false, false, "5", "t", "u", "[d]")) == [Entry("5", "[t|u] (?)")]
    ensures MergeNotes(Split(CreateNotes(false, false, "5", "t", "u", "[d]")), "6", other) == "[5]: [t|u] (?)\n" + other
  {
    var s := CreateNotes(false, false, "5", "t", "u", "[d]");
    CutShortNotes(s);
    CutShortHead(s);
    CutShortText(s);
    ScanStep(s, 0, 4, 5, 14);
    CutShortTail(s);
    CutShortMerged([Entry("5", "[t|u] (?)")], other);
  }

  lemma CutShortMerged(es: seq<Entry>, other: string)
    requires es == [Entry("5", "[t|u] (?)")]
    ensures MergeNotes(es, "6", other) == "[5]: [t|u] (?)\n" + other
  {
    assert Pieces(es, "6", other) == Render(es[0]) + Pieces([], "6", other);
    assert !HasId(es, "6");
  }

  lemma CutShortNotes(s: string)
    requires s == CreateNotes(false, false, "5", "t", "u", "[d]")
    ensures s == "[5]: [t|u] (?)\n[d]\n\n"
  {
  }

  lemma CutShortHead(s: string)
    requires s == "[5]: [t|u] (?)\n[d]\n\n"
    ensures HeaderEnd(s, 0) == 4 && SpacesEnd(s, 4) == 5
    ensures IssueKeys.Substring(s, 1, 2) == "5" && IssueKeys.Substring(s, 5, 14) == "[t|u] (?)"
  {
    assert IssueKeys.DigitsEnd(s, 2) == 2;
    assert IssueKeys.DigitsEnd(s, 1) == 2;
    assert SpacesEnd(s, 5) == 5;
  }

  /** The summary's text stops at the `\n[` that opens the description. */
  lemma CutShortText(s: string)
    requires s == "[5]: [t|u] (?)\n[d]\n\n"
    ensures TextEnd(s, 5) == 14
  {
    assert TextEnd(s, 14) == 14;
    assert TextEnd(s, 13) == 14;
    assert TextEnd(s, 12) == 14;
    assert TextEnd(s, 11) == 14;
    assert TextEnd(s, 10) == 14;
    assert TextEnd(s, 9) == 14;
    assert TextEnd(s, 8) == 14;
    assert TextEnd(s, 7) == 14;
    assert TextEnd(s, 6) == 14;
  }

  /** `[d]` opens no header, so nothing after the cut is read. */
  lemma CutShortTail(s: string)
    requires s == "[5]: [t|u] (?)\n[d]\n\n"
    ensures Scan(s, 14) == []
  {
    ScanSkip(s, 14);
    assert HeaderEnd(s, 15) == 0;
    ScanSkip(s, 16);
    ScanSkip(s, 17);
    ScanSkip(s, 18);
    ScanSkip(s, 19);
  }

  /** A newline followed by an entry header `[digits]:`: where the next entry starts. */
  predicate HeaderBreakAt(s: string, q: nat) {
    q + 1 < |s| && s[q] == '\n' && HeaderEnd(s, q + 1) > 0
  }

  /** Corrected: the text that starts at `t` stops only where the next entry's header starts, or at the end. */
  function HeaderTextEnd(s: string, t: nat): (r: nat)
    requires t <= |s|
    ensures t <= r <= |s|
    ensures r == |s| || HeaderBreakAt(s, r)
    ensures forall q :: t <= q < r ==> !HeaderBreakAt(s, q)
    decreases |s| - t
  {
    if t == |s| || HeaderBreakAt(s, t) then t else HeaderTextEnd(s, t + 1)
  }

  /** Corrected: Scan with texts that run to the next header. */
  function HeaderScan(s: string, p: nat): seq<Entry>
    requires p <= |s|
    decreases |s| - p
  {
    if p == |s| then []
    else if HeaderEnd(s, p) > 0 then
      var t := SpacesEnd(s, HeaderEnd(s, p));
      var e := HeaderTextEnd(s, t);
      [Entry(IssueKeys.Substring(s, p + 1, HeaderEnd(s, p) - 2), IssueKeys.Substring(s, t, e))] + HeaderScan(s, e)
    else HeaderScan(s, p + 1)
  }

  function SplitAtHeaders(notes: string): seq<Entry> {
    HeaderScan(notes, 0)
  }

  /** No line after the first opens with an entry header. */
  predicate NoHeaderBreak(s: string) {
    forall q :: 0 <= q < |s| ==> !HeaderBreakAt(s, q)
  }

  /**
   * Corrected: a created entry reads back whole, description and all, as
   * long as no line of it but the first opens with an entry header.
   */
  lemma CreateNotesReadsBackWhole(merged: bool, closed: bool, id: string, title: string, url: string, description: string)
    requires IsId(id) && NoHeaderBreak(CreateNotes(merged, closed, id, title, url, description))
    ensures var r := CreateNotes(merged, closed, id, title, url, description);
              |r| >= |id| + 4 && SplitAtHeaders(r) == [Entry(id, r[|id| + 4..])]
  {
    var r := CreateNotes(merged, closed, id, title, url, description);
    var e := CreatedRender(merged, closed, id, title, url, description);
    RenderedReadsBackWhole(r, e);
  }

  /** One entry written out, with no header break after its header, reads back whole. */
  lemma RenderedReadsBackWhole(r: string, e: Entry)
    requires IsId(e.id) && |e.text| > 0 && !IssueKeys.IsSpace(e.text[0]) && r == Render(e) && NoHeaderBreak(r)
    ensures |r| >= |e.id| + 4 && SplitAtHeaders(r) == [Entry(e.id, r[|e.id| + 4..])]
  {
    assert IssueKeys.HasAt(r, 0, Render(e)) by {
      assert forall j :: 0 <= j < |r| ==> r[0 + j] == r[j];
    }
    HeaderOfRendered(r, 0, e);
    RenderedAt(r, 0, e);
    var h := |e.id| + 3;
    var t := |e.id| + 4;
    HeaderTextEndAt(r, t, |r|);
    IssueKeys.HasAtSubstring(r, 1, e.id);
    assert h - 2 == 1 + |e.id|;
    IssueKeys.SubstringIsSlice(r, t, |r|);
    HeaderScanLast(r, 0, h, t, e.id, r[t..]);
  }

  /** One step of the corrected scanner over an entry whose text runs to the end. */
  lemma HeaderScanLast(s: string, p: nat, h: nat, t: nat, id: string, text: string)
    requires p < |s| && HeaderEnd(s, p) == h > 0 && SpacesEnd(s, h) == t && HeaderTextEnd(s, t) == |s|
    requires IssueKeys.Substring(s, p + 1, h - 2) == id && IssueKeys.Substring(s, t, |s|) == text
    ensures HeaderScan(s, p) == [Entry(id, text)]
  {
    HeaderScanStep(s, p, h, t, |s|);
  }

  /** `HeaderTextEnd` is the first header break: any stop point with no break before it is the one. */
  lemma HeaderTextEndAt(s: string, t: nat, n: nat)
    requires t <= n <= |s| && (n == |s| || HeaderBreakAt(s, n))
    requires forall q :: t <= q < n ==> !HeaderBreakAt(s, q)
    ensures HeaderTextEnd(s, t) == n
  {
  }

  /** One step of the corrected scanner over a header, its whitespace and its text. */
  lemma HeaderScanStep(s: string, p: nat, h: nat, t: nat, n: nat)
    requires p < |s| && HeaderEnd(s, p) == h > 0 && SpacesEnd(s, h) == t && HeaderTextEnd(s, t) == n
    ensures HeaderScan(s, p) == [Entry(IssueKeys.Substring(s, p + 1, h - 2), IssueKeys.Substring(s, t, n))] + HeaderScan(s, n)
  {
  }

  /**
   * Corrected, on the example above: the notes of a merge request with the
   * description `[d]` read back whole.
   */
  lemma CreatedDescriptionKept()
    ensures SplitAtHeaders(CreateNotes(false, false, "5", "t", "u", "[d]")) == [Entry("5", "[t|u] (?)\n[d]\n\n")]
  {
    var s := CreateNotes(false, false, "5", "t", "u", "[d]");
    CutShortNotes(s);
    CutShortHead(s);
    KeptText(s);
    KeptWhole(s);
    HeaderScanLast(s, 0, 4, 5, "5", "[t|u] (?)\n[d]\n\n");
  }

  lemma KeptWhole(s: string)
    requires s == "[5]: [t|u] (?)\n[d]\n\n"
    ensures IssueKeys.Substring(s, 5, |s|) == "[t|u] (?)\n[d]\n\n"
  {
  }

  /** Neither newline of the example is followed by a header, so its text runs to the end. */
  lemma KeptText(s: string)
    requires s == "[5]: [t|u] (?)\n[d]\n\n"
    ensures HeaderTextEnd(s, 5) == |s|
  {
    assert HeaderEnd(s, 15) == 0 && HeaderEnd(s, 19) == 0;
    forall q | 5 <= q < |s| ensures !HeaderBreakAt(s, q) {
      if s[q] == '\n' {
        assert q == 14 || q == 18 || q == 19;
      }
    }
  }
}
