/**
 * The three key rewrites of webhooks/app/utils.py:45-60 over a whole text.
 * `re.sub` scans left to right and resumes after each match, so a lemma
 * about one match at index `p` only speaks of the whole text once it is
 * known that the scan from the start lands on `p`.  The lemmas here show
 * that no earlier match can run over `p`, split each scanner at `p`, and
 * so state every rewrite for the whole text:
 *   what comes before the match is rewritten on its own, the match is
 *   rewritten, and the scan goes on after it;
 * and text in which no match starts is copied as it stands.
 */
module KeyRewrites {
  import opened IssueKeys

  /** `t` is a prefix of `s`, stated character by character. */
  predicate IsPrefix(t: string, s: string) {
    |t| <= |s| && forall j :: 0 <= j < |t| ==> t[j] == s[j]
  }

  lemma SlicePrefix(s: string, p: nat)
    requires p <= |s|
    ensures IsPrefix(s[..p], s) && |s[..p]| == p
  {
  }

  lemma SubstringPrefix(s: string, t: string, lo: nat, hi: nat)
    requires IsPrefix(t, s) && lo <= hi <= |t|
    ensures Substring(t, lo, hi) == Substring(s, lo, hi)
  {
  }

  lemma AppendEmpty(a: string)
    ensures [] + a == a
  {
  }

  /** A text `x + b` whose rest `b` is `d + w` is `x + d` followed by `w`. */
  lemma Rejoin(a: string, b: string, c: string, d: string, x: string, w: string)
    requires a == x + b && c == x + d && b == d + w
    ensures a == c + w
  {
  }

  // ---------------------------------------------------------------------
  // Runs and keys in a prefix
  // ---------------------------------------------------------------------

  /** A run of letters in a prefix stops where it does in the text, or at the prefix's end. */
  lemma {:induction false} LettersEndPrefix(s: string, t: string, x: nat)
    requires IsPrefix(t, s) && x <= |t|
    ensures LettersEnd(t, x) == LettersEnd(s, x) || (LettersEnd(t, x) == |t| && LettersEnd(s, x) >= |t|)
    decreases |t| - x
  {
    if x < |t| && IsLetter(t[x]) {
      LettersEndPrefix(s, t, x + 1);
    }
  }

  /** A run of digits in a prefix stops where it does in the text, or at the prefix's end. */
  lemma {:induction false} DigitsEndPrefix(s: string, t: string, x: nat)
    requires IsPrefix(t, s) && x <= |t|
    ensures DigitsEnd(t, x) == DigitsEnd(s, x) || (DigitsEnd(t, x) == |t| && DigitsEnd(s, x) >= |t|)
    decreases |t| - x
  {
    if x < |t| && IsDigit(t[x]) {
      DigitsEndPrefix(s, t, x + 1);
    }
  }

  /**
   * A key matched in the text that ends inside a prefix is matched there
   * too, and a key matched in a prefix is matched in the text, the same
   * unless it runs to the prefix's end.
   */
  lemma KeyLenPrefix(s: string, t: string, x: nat)
    requires IsPrefix(t, s) && x <= |t|
    ensures KeyLen(s, x) == 0 || x + KeyLen(s, x) <= |t| ==> KeyLen(t, x) == KeyLen(s, x)
    ensures KeyLen(t, x) > 0 ==> KeyLen(s, x) > 0
    ensures KeyLen(t, x) == 0 || x + KeyLen(t, x) == |t| || KeyLen(t, x) == KeyLen(s, x)
  {
    var l := LettersEnd(s, x);
    var lt := LettersEnd(t, x);
    LettersEndPrefix(s, t, x);
    if KeyLen(t, x) > 0 {
      assert lt < |t|;
      assert lt == l;
      DigitsEndPrefix(s, t, l + 1);
    }
    if KeyLen(s, x) > 0 && x + KeyLen(s, x) <= |t| {
      assert l < |t|;
      assert lt == l;
      DigitsEndPrefix(s, t, l + 1);
    }
  }

  /** A key ends with a digit. */
  lemma KeyEndsWithDigit(s: string, x: nat)
    requires x <= |s| && KeyLen(s, x) > 0
    ensures IsDigit(s[x + KeyLen(s, x) - 1])
  {
    var l := LettersEnd(s, x);
    DigitsRun(s, l + 1);
  }

  // ---------------------------------------------------------------------
  // remove_square_brackets_around_issue_keys (webhooks/app/utils.py:45-47)
  // ---------------------------------------------------------------------

  lemma BracketedKeyLenPrefix(s: string, t: string, i: nat)
    requires IsPrefix(t, s) && i < |t|
    requires BracketedKeyLen(s, i) == 0 || i + BracketedKeyLen(s, i) <= |t|
    ensures BracketedKeyLen(t, i) == BracketedKeyLen(s, i)
  {
    KeyLenPrefix(s, t, i + 1);
  }

  /** A match of Unbracket at `j`, if any, ends by `hi`. */
  predicate UnbracketFits(s: string, j: nat, hi: nat)
    requires j <= |s|
  {
    BracketedKeyLen(s, j) == 0 || j + BracketedKeyLen(s, j) <= hi
  }

  /** Cutting `s` at `|t|`, a prefix of it, leaves every match from `i` on whole. */
  predicate UnbracketCut(s: string, t: string, i: nat) {
    IsPrefix(t, s) && i <= |t| && forall j :: i <= j < |t| ==> UnbracketFits(s, j, |t|)
  }

  /** Unbracket from `n` is Unbracket of the prefix `t` from `n` followed by Unbracket of the rest. */
  predicate UnbracketSplitsAt(s: string, t: string, n: nat) {
    IsPrefix(t, s) && n <= |t| && Unbracket(s, n) == Unbracket(t, n) + Unbracket(s, |t|)
  }

  /** The step over a `[KEY]` match, given the cut splits the text after it. */
  lemma UnbracketSplitKey(s: string, t: string, i: nat)
    requires UnbracketCut(s, t, i) && i < |t| && BracketedKeyLen(s, i) > 0 && UnbracketSplitsAt(s, t, i + BracketedKeyLen(s, i))
    ensures UnbracketSplitsAt(s, t, i)
  {
    assert UnbracketFits(s, i, |t|);
    var x := UnbracketKeyPair(s, t, i);
    Rejoin(Unbracket(s, i), Unbracket(s, i + BracketedKeyLen(s, i)), Unbracket(t, i), Unbracket(t, i + BracketedKeyLen(s, i)),
           x, Unbracket(s, |t|));
  }

  /** A `[KEY]` match below the cut is the same in the text and in the prefix. */
  lemma UnbracketKeyPair(s: string, t: string, i: nat) returns (x: string)
    requires IsPrefix(t, s) && i < |t| && BracketedKeyLen(s, i) > 0 && i + BracketedKeyLen(s, i) <= |t|
    ensures Unbracket(s, i) == x + Unbracket(s, i + BracketedKeyLen(s, i))
    ensures Unbracket(t, i) == x + Unbracket(t, i + BracketedKeyLen(s, i))
  {
    BracketedKeyLenPrefix(s, t, i);
    var b := BracketedKeyLen(s, i);
    UnbracketKeyStep(s, i, b);
    UnbracketKeyStep(t, i, b);
    SubstringPrefix(s, t, i + 1, i + b - 1);
    x := Substring(s, i + 1, i + b - 1);
  }

  /** The step over any other character, given the cut splits the text after it. */
  lemma UnbracketSplitPlain(s: string, t: string, i: nat)
    requires UnbracketCut(s, t, i) && i < |t| && BracketedKeyLen(s, i) == 0 && UnbracketSplitsAt(s, t, i + 1)
    ensures UnbracketSplitsAt(s, t, i)
  {
    BracketedKeyLenPrefix(s, t, i);
    UnbracketPlainStep(s, i);
    UnbracketPlainStep(t, i);
    assert t[i] == s[i];
    Rejoin(Unbracket(s, i), Unbracket(s, i + 1), Unbracket(t, i), Unbracket(t, i + 1), [s[i]], Unbracket(s, |t|));
  }

  /** Where the scan of Unbracket goes on after index `i`. */
  function UnbracketNext(s: string, i: nat): nat
    requires i < |s|
  {
    if BracketedKeyLen(s, i) > 0 then i + BracketedKeyLen(s, i) else i + 1
  }

  /** The scan moves on within the cut. */
  lemma UnbracketCutNext(s: string, t: string, i: nat)
    requires UnbracketCut(s, t, i) && i < |t|
    ensures i < UnbracketNext(s, i) && UnbracketCut(s, t, UnbracketNext(s, i))
  {
    assert UnbracketFits(s, i, |t|);
  }

  /** One step of the scan below the cut: the split after the step gives the split before it. */
  lemma UnbracketSplitStep(s: string, t: string, i: nat)
    requires UnbracketCut(s, t, i) && i < |t| && UnbracketSplitsAt(s, t, UnbracketNext(s, i))
    ensures UnbracketSplitsAt(s, t, i)
  {
    if BracketedKeyLen(s, i) > 0 {
      UnbracketSplitKey(s, t, i);
    } else {
      UnbracketSplitPlain(s, t, i);
    }
  }

  /** Cut where no match runs over the cut, Unbracket works on each side by itself. */
  lemma {:induction false} UnbracketSplit(s: string, t: string, i: nat)
    requires UnbracketCut(s, t, i)
    ensures UnbracketSplitsAt(s, t, i)
    decreases |t| - i
  {
    if i == |t| {
      assert Unbracket(t, i) == [];
      AppendEmpty(Unbracket(s, |t|));
    } else {
      UnbracketCutNext(s, t, i);
      UnbracketSplit(s, t, UnbracketNext(s, i));
      UnbracketSplitStep(s, t, i);
    }
  }

  /** No `[KEY]` match runs over an opening bracket: its inside holds none and it ends with `]`. */
  lemma UnbracketNoStraddle(s: string, p: nat)
    requires p < |s| && s[p] == '['
    ensures forall j :: 0 <= j < p ==> UnbracketFits(s, j, p)
  {
    forall j | 0 <= j < p && BracketedKeyLen(s, j) > 0
      ensures j + BracketedKeyLen(s, j) <= p
    {
      var b := BracketedKeyLen(s, j);
      if p < j + b - 1 {
        KeyHasNoPrefixChar(s, j + 1, p);
      }
    }
  }

  /**
   * Every `[KEY]` in the text loses its brackets: the text before it is
   * rewritten by itself, the match becomes its key and the scan resumes
   * after the closing bracket.
   */
  lemma UnbracketEvery(s: string, p: nat, key: string)
    requires IsKey(key) && p + |key| + 2 <= |s|
    requires s[p] == '[' && HasAt(s, p + 1, key) && s[p + 1 + |key|] == ']'
    ensures Unbracket(s, 0) == Unbracket(s[..p], 0) + key + Unbracket(s, p + |key| + 2)
  {
    SlicePrefix(s, p);
    UnbracketNoStraddle(s, p);
    UnbracketSplit(s, s[..p], 0);
    UnbracketKey(s, p, key);
  }

  /** A stretch in which no `[KEY]` starts is copied as it stands. */
  lemma {:induction false} UnbracketPlain(s: string, i: nat, p: nat)
    requires i <= p <= |s|
    requires forall j :: i <= j < p ==> BracketedKeyLen(s, j) == 0
    ensures Unbracket(s, i) == Substring(s, i, p) + Unbracket(s, p)
    decreases p - i
  {
    if i < p {
      UnbracketPlainStep(s, i);
      UnbracketPlain(s, i + 1, p);
      Rejoin(Unbracket(s, i), Unbracket(s, i + 1), Substring(s, i, p), Substring(s, i + 1, p), [s[i]], Unbracket(s, p));
    } else {
      AppendEmpty(Unbracket(s, p));
    }
  }

  // ---------------------------------------------------------------------
  // The `Closes KEY` deletion of sanitize_description (webhooks/app/utils.py:51)
  // ---------------------------------------------------------------------

  lemma ClosesLenPrefix(s: string, t: string, i: nat)
    requires IsPrefix(t, s) && i < |t|
    requires ClosesLen(s, i) == 0 || i + ClosesLen(s, i) <= |t|
    ensures ClosesLen(t, i) == ClosesLen(s, i)
  {
    if i + 7 <= |t| {
      KeyLenPrefix(s, t, i + 7);
    }
  }

  /** A match of DropCloses at `j`, if any, ends by `hi`. */
  predicate DropClosesFits(s: string, j: nat, hi: nat)
    requires j <= |s|
  {
    ClosesLen(s, j) == 0 || j + ClosesLen(s, j) <= hi
  }

  /** Cutting `s` at `|t|`, a prefix of it, leaves every match from `i` on whole. */
  predicate DropClosesCut(s: string, t: string, i: nat) {
    IsPrefix(t, s) && i <= |t| && forall j :: i <= j < |t| ==> DropClosesFits(s, j, |t|)
  }

  /** DropCloses from `n` is DropCloses of the prefix `t` from `n` followed by DropCloses of the rest. */
  predicate DropClosesSplitsAt(s: string, t: string, n: nat) {
    IsPrefix(t, s) && n <= |t| && DropCloses(s, n) == DropCloses(t, n) + DropCloses(s, |t|)
  }

  lemma DropClosesPlainStep(s: string, i: nat)
    requires i < |s| && ClosesLen(s, i) == 0
    ensures DropCloses(s, i) == [s[i]] + DropCloses(s, i + 1)
  {
  }

  /** The step over a `Closes KEY` match, given the cut splits the text after it. */
  lemma DropClosesSplitKey(s: string, t: string, i: nat)
    requires DropClosesCut(s, t, i) && i < |t| && ClosesLen(s, i) > 0 && DropClosesSplitsAt(s, t, i + ClosesLen(s, i))
    ensures DropClosesSplitsAt(s, t, i)
  {
    DropClosesKeyPair(s, t, i);
  }

  /** A `Closes KEY` match below the cut is deleted from the text and from the prefix alike. */
  lemma DropClosesKeyPair(s: string, t: string, i: nat)
    requires DropClosesCut(s, t, i) && i < |t| && ClosesLen(s, i) > 0
    ensures i + ClosesLen(s, i) <= |t|
    ensures DropCloses(s, i) == DropCloses(s, i + ClosesLen(s, i))
    ensures DropCloses(t, i) == DropCloses(t, i + ClosesLen(s, i))
  {
    assert DropClosesFits(s, i, |t|);
    ClosesLenPrefix(s, t, i);
    DropClosesStep(s, i);
    DropClosesStep(t, i);
  }

  /** The step over any other character, given the cut splits the text after it. */
  lemma DropClosesSplitPlain(s: string, t: string, i: nat)
    requires DropClosesCut(s, t, i) && i < |t| && ClosesLen(s, i) == 0 && DropClosesSplitsAt(s, t, i + 1)
    ensures DropClosesSplitsAt(s, t, i)
  {
    ClosesLenPrefix(s, t, i);
    DropClosesPlainStep(s, i);
    DropClosesPlainStep(t, i);
    assert t[i] == s[i];
    Rejoin(DropCloses(s, i), DropCloses(s, i + 1), DropCloses(t, i), DropCloses(t, i + 1), [s[i]], DropCloses(s, |t|));
  }

  /** Where the scan of DropCloses goes on after index `i`. */
  function DropClosesNext(s: string, i: nat): nat
    requires i < |s|
  {
    if ClosesLen(s, i) > 0 then i + ClosesLen(s, i) else i + 1
  }

  /** The scan moves on within the cut. */
  lemma DropClosesCutNext(s: string, t: string, i: nat)
    requires DropClosesCut(s, t, i) && i < |t|
    ensures i < DropClosesNext(s, i) && DropClosesCut(s, t, DropClosesNext(s, i))
  {
    assert DropClosesFits(s, i, |t|);
  }

  /** One step of the scan below the cut: the split after the step gives the split before it. */
  lemma DropClosesSplitStep(s: string, t: string, i: nat)
    requires DropClosesCut(s, t, i) && i < |t| && DropClosesSplitsAt(s, t, DropClosesNext(s, i))
    ensures DropClosesSplitsAt(s, t, i)
  {
    if ClosesLen(s, i) > 0 {
      DropClosesSplitKey(s, t, i);
    } else {
      DropClosesSplitPlain(s, t, i);
    }
  }

  /** Cut where no match runs over the cut, DropCloses works on each side by itself. */
  lemma {:induction false} DropClosesSplit(s: string, t: string, i: nat)
    requires DropClosesCut(s, t, i)
    ensures DropClosesSplitsAt(s, t, i)
    decreases |t| - i
  {
    if i == |t| {
      assert DropCloses(t, i) == [];
      AppendEmpty(DropCloses(s, |t|));
    } else {
      DropClosesCutNext(s, t, i);
      DropClosesSplit(s, t, DropClosesNext(s, i));
      DropClosesSplitStep(s, t, i);
    }
  }

  /**
   * No `Closes KEY` match runs over the start of another `Closes `: the
   * word's letters after its `C` hold no `C`, the key holds no space, and a
   * key ends with a digit.
   */
  lemma DropClosesNoStraddle(s: string, p: nat)
    requires ClosesAt(s, p)
    ensures forall j :: 0 <= j < p ==> DropClosesFits(s, j, p)
  {
    forall j | 0 <= j < p && ClosesLen(s, j) > 0
      ensures j + ClosesLen(s, j) <= p
    {
      var c := ClosesLen(s, j);
      if p < j + c {
        assert j + 7 <= p;
        if p + 6 < j + c {
          KeyHasNoPrefixChar(s, j + 7, p + 6);
        } else {
          KeyEndsWithDigit(s, j + 7);
        }
      }
    }
  }

  /**
   * Every `Closes KEY` in the text is deleted: the text before it is
   * rewritten by itself and the scan resumes after the key.
   */
  lemma DropClosesEvery(s: string, p: nat, key: string)
    requires IsKey(key) && ClosesAt(s, p) && HasAt(s, p + 7, key)
    requires p + 7 + |key| == |s| || !IsDigit(s[p + 7 + |key|])
    ensures DropCloses(s, 0) == DropCloses(s[..p], 0) + DropCloses(s, p + 7 + |key|)
  {
    SlicePrefix(s, p);
    DropClosesNoStraddle(s, p);
    DropClosesSplit(s, s[..p], 0);
    DropClosesKey(s, p, key);
  }

  /** Only `Closes KEY` is deleted: a stretch in which none starts is copied as it stands. */
  lemma {:induction false} DropClosesPlain(s: string, i: nat, p: nat)
    requires i <= p <= |s|
    requires forall j :: i <= j < p ==> ClosesLen(s, j) == 0
    ensures DropCloses(s, i) == Substring(s, i, p) + DropCloses(s, p)
    decreases p - i
  {
    if i < p {
      DropClosesPlainStep(s, i);
      DropClosesPlain(s, i + 1, p);
      Rejoin(DropCloses(s, i), DropCloses(s, i + 1), Substring(s, i, p), Substring(s, i + 1, p), [s[i]], DropCloses(s, p));
    } else {
      AppendEmpty(DropCloses(s, p));
    }
  }

  // ---------------------------------------------------------------------
  // The `Resolve KEY` rewrite of sanitize_title (webhooks/app/utils.py:57-59)
  // ---------------------------------------------------------------------

  lemma ResolveLenPrefix(s: string, t: string, i: nat)
    requires IsPrefix(t, s) && i < |t|
    requires ResolveLen(s, i) == 0 || i + ResolveLen(s, i) <= |t|
    ensures ResolveLen(t, i) == ResolveLen(s, i)
  {
    if i + 8 <= |t| {
      KeyLenPrefix(s, t, i + 8);
    }
  }

  /** A match of DropResolve at `j`, if any, ends by `hi`. */
  predicate DropResolveFits(s: string, j: nat, hi: nat)
    requires j <= |s|
  {
    ResolveLen(s, j) == 0 || j + ResolveLen(s, j) <= hi
  }

  /** Cutting `s` at `|t|`, a prefix of it, leaves every match from `i` on whole. */
  predicate DropResolveCut(s: string, t: string, i: nat) {
    IsPrefix(t, s) && i <= |t| && forall j :: i <= j < |t| ==> DropResolveFits(s, j, |t|)
  }

  /** DropResolve from `n` is DropResolve of the prefix `t` from `n` followed by DropResolve of the rest. */
  predicate DropResolveSplitsAt(s: string, t: string, n: nat) {
    IsPrefix(t, s) && n <= |t| && DropResolve(s, n) == DropResolve(t, n) + DropResolve(s, |t|)
  }

  lemma DropResolvePlainStep(s: string, i: nat)
    requires i < |s| && ResolveLen(s, i) == 0
    ensures DropResolve(s, i) == [s[i]] + DropResolve(s, i + 1)
  {
  }

  /** The step over a `Resolve KEY` match, given the cut splits the text after it. */
  lemma DropResolveSplitKey(s: string, t: string, i: nat)
    requires DropResolveCut(s, t, i) && i < |t| && ResolveLen(s, i) > 0 && DropResolveSplitsAt(s, t, i + ResolveLen(s, i))
    ensures DropResolveSplitsAt(s, t, i)
  {
    var x := DropResolveKeyPair(s, t, i);
    Rejoin(DropResolve(s, i), DropResolve(s, i + ResolveLen(s, i)), DropResolve(t, i), DropResolve(t, i + ResolveLen(s, i)),
           x, DropResolve(s, |t|));
  }

  /** A `Resolve KEY` match below the cut is the same in the text and in the prefix. */
  lemma DropResolveKeyPair(s: string, t: string, i: nat) returns (x: string)
    requires DropResolveCut(s, t, i) && i < |t| && ResolveLen(s, i) > 0
    ensures i + ResolveLen(s, i) <= |t|
    ensures DropResolve(s, i) == x + DropResolve(s, i + ResolveLen(s, i))
    ensures DropResolve(t, i) == x + DropResolve(t, i + ResolveLen(s, i))
  {
    assert DropResolveFits(s, i, |t|);
    ResolveLenPrefix(s, t, i);
    DropResolveStep(s, i);
    DropResolvePrefixKey(s, t, i);
    x := Substring(s, i + 8, i + ResolveLen(s, i));
  }

  /** One step over a `Resolve KEY` match reads in a prefix that holds it as it does in the text. */
  lemma DropResolvePrefixKey(s: string, t: string, i: nat)
    requires IsPrefix(t, s) && i < |t| && ResolveLen(t, i) == ResolveLen(s, i) > 0 && i + ResolveLen(s, i) <= |t|
    ensures DropResolve(t, i) == Substring(s, i + 8, i + ResolveLen(s, i)) + DropResolve(t, i + ResolveLen(s, i))
  {
    DropResolveStep(t, i);
    SubstringPrefix(s, t, i + 8, i + ResolveLen(t, i));
  }

  /** The step over any other character, given the cut splits the text after it. */
  lemma DropResolveSplitPlain(s: string, t: string, i: nat)
    requires DropResolveCut(s, t, i) && i < |t| && ResolveLen(s, i) == 0 && DropResolveSplitsAt(s, t, i + 1)
    ensures DropResolveSplitsAt(s, t, i)
  {
    ResolveLenPrefix(s, t, i);
    DropResolvePlainStep(s, i);
    DropResolvePlainStep(t, i);
    assert t[i] == s[i];
    Rejoin(DropResolve(s, i), DropResolve(s, i + 1), DropResolve(t, i), DropResolve(t, i + 1), [s[i]], DropResolve(s, |t|));
  }

  /** Where the scan of DropResolve goes on after index `i`. */
  function DropResolveNext(s: string, i: nat): nat
    requires i < |s|
  {
    if ResolveLen(s, i) > 0 then i + ResolveLen(s, i) else i + 1
  }

  /** The scan moves on within the cut. */
  lemma DropResolveCutNext(s: string, t: string, i: nat)
    requires DropResolveCut(s, t, i) && i < |t|
    ensures i < DropResolveNext(s, i) && DropResolveCut(s, t, DropResolveNext(s, i))
  {
    assert DropResolveFits(s, i, |t|);
  }

  /** One step of the scan below the cut: the split after the step gives the split before it. */
  lemma DropResolveSplitStep(s: string, t: string, i: nat)
    requires DropResolveCut(s, t, i) && i < |t| && DropResolveSplitsAt(s, t, DropResolveNext(s, i))
    ensures DropResolveSplitsAt(s, t, i)
  {
    if ResolveLen(s, i) > 0 {
      DropResolveSplitKey(s, t, i);
    } else {
      DropResolveSplitPlain(s, t, i);
    }
  }

  /** Cut where no match runs over the cut, DropResolve works on each side by itself. */
  lemma {:induction false} DropResolveSplit(s: string, t: string, i: nat)
    requires DropResolveCut(s, t, i)
    ensures DropResolveSplitsAt(s, t, i)
    decreases |t| - i
  {
    if i == |t| {
      assert DropResolve(t, i) == [];
      AppendEmpty(DropResolve(s, |t|));
    } else {
      DropResolveCutNext(s, t, i);
      DropResolveSplit(s, t, DropResolveNext(s, i));
      DropResolveSplitStep(s, t, i);
    }
  }

  /**
   * No `Resolve KEY` match runs over the start of another `Resolve `: the
   * word's letters after its `R` hold no `R`, the key holds no space, and a
   * key ends with a digit.
   */
  lemma DropResolveNoStraddle(s: string, p: nat)
    requires ResolveAt(s, p)
    ensures forall j :: 0 <= j < p ==> DropResolveFits(s, j, p)
  {
    forall j | 0 <= j < p && ResolveLen(s, j) > 0
      ensures j + ResolveLen(s, j) <= p
    {
      var r := ResolveLen(s, j);
      if p < j + r {
        assert j + 8 <= p;
        if p + 7 < j + r {
          KeyHasNoPrefixChar(s, j + 8, p + 7);
        } else {
          KeyEndsWithDigit(s, j + 8);
        }
      }
    }
  }

  /**
   * Every `Resolve KEY` in the title becomes its key: the text before it is
   * rewritten by itself and the scan resumes after the key.
   */
  lemma DropResolveEvery(s: string, p: nat, key: string)
    requires IsKey(key) && ResolveAt(s, p) && HasAt(s, p + 8, key)
    requires p + 8 + |key| == |s| || !IsDigit(s[p + 8 + |key|])
    ensures DropResolve(s, 0) == DropResolve(s[..p], 0) + key + DropResolve(s, p + 8 + |key|)
  {
    SlicePrefix(s, p);
    DropResolveNoStraddle(s, p);
    DropResolveSplit(s, s[..p], 0);
    DropResolveKey(s, p, key);
  }

  /** Only `Resolve ` before a key is removed: a stretch in which none starts is copied as it stands. */
  lemma {:induction false} DropResolvePlain(s: string, i: nat, p: nat)
    requires i <= p <= |s|
    requires forall j :: i <= j < p ==> ResolveLen(s, j) == 0
    ensures DropResolve(s, i) == Substring(s, i, p) + DropResolve(s, p)
    decreases p - i
  {
    if i < p {
      DropResolvePlainStep(s, i);
      DropResolvePlain(s, i + 1, p);
      Rejoin(DropResolve(s, i), DropResolve(s, i + 1), Substring(s, i, p), Substring(s, i + 1, p), [s[i]], DropResolve(s, p));
    } else {
      AppendEmpty(DropResolve(s, p));
    }
  }

  // ---------------------------------------------------------------------
  // sanitize_title as a whole (webhooks/app/utils.py:57-60)
  // ---------------------------------------------------------------------

  /** A title holding no `Resolve KEY` and no `[KEY]` comes out of sanitize_title as it went in. */
  lemma SanitizeTitleKeeps(title: string)
    requires forall j :: 0 <= j < |title| ==> ResolveLen(title, j) == 0 && BracketedKeyLen(title, j) == 0
    ensures SanitizeTitle(title) == title
  {
    DropResolvePlain(title, 0, |title|);
    SubstringIsSlice(title, 0, |title|);
    assert DropResolve(title, 0) == title by {
      assert title[0..|title|] == title;
      AppendEmptyRight(title);
    }
    UnbracketPlain(title, 0, |title|);
    AppendEmptyRight(title);
  }

  lemma AppendEmptyRight(a: string)
    ensures a + [] == a
  {
  }
}
