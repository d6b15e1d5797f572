/**
 * The issue-key regular expressions of webhooks/app/utils.py, each written
 * out as a scanner over the text.  `\s` and `\d` are taken as their ASCII
 * character classes.  Scanners walk an index `i` over a fixed text `s`.
 */
module IssueKeys {

  predicate IsLetter(c: char) { 'a' <= c <= 'z' || 'A' <= c <= 'Z' }

  predicate IsDigit(c: char) { '0' <= c <= '9' }

  /** ASCII whitespace: space, tab, newline, vertical tab, form feed, carriage return. */
  predicate IsSpace(c: char) { c == ' ' || '\t' <= c <= '\r' }

  /** The characters the key pattern accepts just before a key: `/`, `'`, `"`, `[` or whitespace. */
  predicate IsKeyPrefix(c: char) { c == '/' || c == '\'' || c == '"' || c == '[' || IsSpace(c) }

  /**
   * The characters of `s` from index `lo` up to `hi`, taken one at a time:
   * the slice `s[lo..hi]` (SubstringIsSlice), written so that the scanners
   * below never need the solver's slicing axioms.
   */
  function Substring(s: string, lo: nat, hi: nat): (r: string)
    requires lo <= hi <= |s|
    ensures |r| == hi - lo && forall j :: 0 <= j < |r| ==> r[j] == s[lo + j]
    decreases hi - lo
  {
    if lo == hi then [] else [s[lo]] + Substring(s, lo + 1, hi)
  }

  lemma SubstringIsSlice(s: string, lo: nat, hi: nat)
    requires lo <= hi <= |s|
    ensures Substring(s, lo, hi) == s[lo..hi]
  {
  }

  /** Whether `s` holds `word` at index `i`. */
  predicate HasAt(s: string, i: nat, word: string) {
    i + |word| <= |s| && forall j :: 0 <= j < |word| ==> s[i + j] == word[j]
  }

  /** The text `s` holds at index `i` is the substring there. */
  lemma HasAtSubstring(s: string, i: nat, word: string)
    requires HasAt(s, i, word)
    ensures Substring(s, i, i + |word|) == word
  {
  }

  /** End of the run of letters that starts at `i`. */
  function LettersEnd(s: string, i: nat): (r: nat)
    requires i <= |s|
    ensures i <= r <= |s|
    ensures r < |s| ==> !IsLetter(s[r])
    decreases |s| - i
  {
    if i == |s| || !IsLetter(s[i]) then i else LettersEnd(s, i + 1)
  }

  /** End of the run of digits that starts at `i`. */
  function DigitsEnd(s: string, i: nat): (r: nat)
    requires i <= |s|
    ensures i <= r <= |s|
    ensures r < |s| ==> !IsDigit(s[r])
    decreases |s| - i
  {
    if i == |s| || !IsDigit(s[i]) then i else DigitsEnd(s, i + 1)
  }

  /** The run LettersEnd finds is all letters. */
  lemma {:induction false} LettersRun(s: string, i: nat)
    requires i <= |s|
    ensures forall j :: i <= j < LettersEnd(s, i) ==> IsLetter(s[j])
    decreases |s| - i
  {
    if i < |s| && IsLetter(s[i]) {
      LettersRun(s, i + 1);
    }
  }

  /** The run DigitsEnd finds is all digits. */
  lemma {:induction false} DigitsRun(s: string, i: nat)
    requires i <= |s|
    ensures forall j :: i <= j < DigitsEnd(s, i) ==> IsDigit(s[j])
    decreases |s| - i
  {
    if i < |s| && IsDigit(s[i]) {
      DigitsRun(s, i + 1);
    }
  }

  /** An issue key: one or more ASCII letters, a dash, one or more digits. */
  predicate IsKey(k: string) {
    var d := LettersEnd(k, 0);
    0 < d < |k| - 1 && k[d] == '-' && forall j :: d < j < |k| ==> IsDigit(k[j])
  }

  /**
   * Length of the text `[a-zA-Z]+-\d+` matches at index `i`, or 0 when it
   * does not match there.  Both runs are greedy and what follows a shorter
   * run is a letter or a digit, never the `-` or the end the pattern needs,
   * so the match, when there is one, is the longest.
   */
  function KeyLen(s: string, i: nat): (r: nat)
    requires i <= |s|
    ensures i + r <= |s|
    ensures r > 0 ==> i + r == |s| || !IsDigit(s[i + r])
  {
    var l := LettersEnd(s, i);
    if i < l < |s| && s[l] == '-' && DigitsEnd(s, l + 1) > l + 1 then DigitsEnd(s, l + 1) - i else 0
  }

  /** What a match covers is a key. */
  lemma KeyLenIsKey(s: string, i: nat)
    requires i <= |s| && KeyLen(s, i) > 0
    ensures IsKey(Substring(s, i, i + KeyLen(s, i)))
  {
    var k := Substring(s, i, i + KeyLen(s, i));
    var l := LettersEnd(s, i);
    LettersRun(s, i);
    LettersRun(k, 0);
    DigitsRun(s, l + 1);
    assert LettersEnd(k, 0) == l - i by {
      assert forall j :: 0 <= j < l - i ==> IsLetter(k[j]);
      assert !IsLetter(k[l - i]);
    }
  }

  /** A match holds letters, a dash and digits, none of them a character that may precede a key. */
  lemma KeyHasNoPrefixChar(s: string, i: nat, j: nat)
    requires i <= |s| && i <= j < i + KeyLen(s, i)
    ensures IsLetter(s[j]) || s[j] == '-' || IsDigit(s[j])
    ensures !IsKeyPrefix(s[j])
  {
    var l := LettersEnd(s, i);
    LettersRun(s, i);
    DigitsRun(s, l + 1);
    assert j < l || j == l || DigitsEnd(s, l + 1) > j;
  }

  /** A whole key followed by anything but a further digit is matched exactly. */
  lemma KeyLenOfKey(s: string, p: nat, k: string)
    requires IsKey(k) && HasAt(s, p, k)
    requires p + |k| == |s| || !IsDigit(s[p + |k|])
    ensures KeyLen(s, p) == |k|
  {
    var d := LettersEnd(k, 0);
    assert forall j :: p <= j < p + |k| ==> s[j] == k[j - p];
    LettersRun(s, p);
    LettersRun(k, 0);
    DigitsRun(s, p + d + 1);
    assert LettersEnd(s, p) == p + d by {
      assert forall j :: p <= j < p + d ==> IsLetter(s[j]);
      assert !IsLetter(s[p + d]);
    }
    assert DigitsEnd(s, p + d + 1) == p + |k| by {
      assert forall j :: p + d + 1 <= j < p + |k| ==> IsDigit(s[j]);
    }
  }

  // ---------------------------------------------------------------------
  // extract_issue_keys (webhooks/app/utils.py:42-43)
  // ---------------------------------------------------------------------

  /**
   * The left-to-right scan `re.findall` performs for the key pattern, from
   * index `i`.  `boundary` says whether index `i` may start a key: the
   * string start (`^`) or the index right after one of the prefix
   * characters.  The lookahead that follows the key in the pattern accepts
   * every position (its unescaped `.` matches any character but a newline,
   * `\s` matches a newline and `$` the end), so it never rejects a match.
   */
  function ScanKeys(s: string, i: nat, boundary: bool): seq<string>
    requires i <= |s|
    decreases |s| - i
  {
    if i == |s| then []
    else if boundary && KeyLen(s, i) > 0 then [Substring(s, i, i + KeyLen(s, i))] + ScanKeys(s, i + KeyLen(s, i), false)
    else ScanKeys(s, i + 1, IsKeyPrefix(s[i]))
  }

  /** The set of issue keys mentioned in `text`. */
  function ExtractIssueKeys(text: string): set<string>
  {
    set x | x in ScanKeys(text, 0, true)
  }

  /** Index `p` of `s` starts a key the pattern finds, when the scan began at `i`. */
  ghost predicate KeyStartsAt(s: string, i: nat, boundary: bool, p: nat)
    requires i <= p < |s|
  {
    (if p == i then boundary else IsKeyPrefix(s[p - 1])) && KeyLen(s, p) > 0
  }

  /** Every key the scan reports starts at an index the pattern accepts. */
  lemma {:induction false} ScanKeysSound(s: string, i: nat, boundary: bool, x: string) returns (p: nat)
    requires i <= |s| && x in ScanKeys(s, i, boundary)
    ensures i <= p < |s| && KeyStartsAt(s, i, boundary, p) && x == Substring(s, p, p + KeyLen(s, p))
    decreases |s| - i
  {
    var n := KeyLen(s, i);
    if boundary && n > 0 {
      ScanKeysAtKey(s, i, boundary, n);
      if x == Substring(s, i, i + n) {
        p := i;
      } else {
        p := ScanKeysSound(s, i + n, false, x);
        KeyStartsLater(s, i, i + n, boundary, false, p);
      }
    } else {
      ScanKeysPast(s, i, boundary);
      p := ScanKeysSound(s, i + 1, IsKeyPrefix(s[i]), x);
      KeyStartsLater(s, i, i + 1, boundary, IsKeyPrefix(s[i]), p);
    }
  }

  /** One step of the scan over a key it reports. */
  lemma ScanKeysAtKey(s: string, i: nat, boundary: bool, n: nat)
    requires i < |s| && boundary && n == KeyLen(s, i) > 0
    ensures ScanKeys(s, i, boundary) == [Substring(s, i, i + n)] + ScanKeys(s, i + n, false)
  {
  }

  /** One step of the scan past a character that starts no reported key. */
  lemma ScanKeysPast(s: string, i: nat, boundary: bool)
    requires i < |s| && !(boundary && KeyLen(s, i) > 0)
    ensures ScanKeys(s, i, boundary) == ScanKeys(s, i + 1, IsKeyPrefix(s[i]))
  {
  }

  /** A start the scan accepts from a later index `j` is one it accepts from `i`. */
  lemma KeyStartsLater(s: string, i: nat, j: nat, boundary: bool, later: bool, p: nat)
    requires i < j <= p < |s| && KeyStartsAt(s, j, later, p)
    requires later ==> IsKeyPrefix(s[j - 1])
    ensures KeyStartsAt(s, i, boundary, p)
  {
  }

  /** Every index the pattern accepts contributes its key to the scan. */
  lemma {:induction false} ScanKeysComplete(s: string, i: nat, boundary: bool, p: nat)
    requires i <= p < |s| && KeyStartsAt(s, i, boundary, p)
    ensures Substring(s, p, p + KeyLen(s, p)) in ScanKeys(s, i, boundary)
    decreases |s| - i
  {
    var n := KeyLen(s, i);
    if boundary && n > 0 {
      if i < p {
        assert p > i + n by {
          if p <= i + n { KeyHasNoPrefixChar(s, i, p - 1); }
        }
        ScanKeysComplete(s, i + n, false, p);
      }
    } else {
      ScanKeysComplete(s, i + 1, IsKeyPrefix(s[i]), p);
    }
  }

  /** Every extracted key is letters, a dash and digits. */
  lemma ExtractedAreKeys(text: string, x: string)
    requires x in ExtractIssueKeys(text)
    ensures IsKey(x)
  {
    var p := ScanKeysSound(text, 0, true, x);
    KeyLenIsKey(text, p);
  }

  /**
   * A string is among the extracted keys exactly when it is the key that
   * starts at the beginning of the text or right after `/`, `'`, `"`, `[`
   * or whitespace.
   */
  lemma ExtractIssueKeysExactly(text: string, x: string)
    ensures x in ExtractIssueKeys(text) <==>
      exists p :: 0 <= p < |text| && KeyStartsAt(text, 0, true, p) && x == Substring(text, p, p + KeyLen(text, p))
  {
    if x in ExtractIssueKeys(text) {
      var p := ScanKeysSound(text, 0, true, x);
    }
    if p :| 0 <= p < |text| && KeyStartsAt(text, 0, true, p) && x == Substring(text, p, p + KeyLen(text, p)) {
      ScanKeysComplete(text, 0, true, p);
    }
  }

  // ---------------------------------------------------------------------
  // remove_square_brackets_around_issue_keys, sanitize_description,
  // sanitize_title (webhooks/app/utils.py:45-60)
  // ---------------------------------------------------------------------

  /** Length of the text `\[([a-zA-Z]+-\d+)\]` matches at index `i`, or 0. */
  function BracketedKeyLen(s: string, i: nat): (r: nat)
    requires i <= |s|
    ensures r == 0 || (r >= 2 && i + r <= |s| && s[i] == '[' && s[i + r - 1] == ']' && KeyLen(s, i + 1) == r - 2)
  {
    if i < |s| && s[i] == '[' && KeyLen(s, i + 1) > 0 && i + 1 + KeyLen(s, i + 1) < |s|
       && s[i + 1 + KeyLen(s, i + 1)] == ']'
    then KeyLen(s, i + 1) + 2
    else 0
  }

  /**
   * `re.sub` of `[KEY]` by `KEY` on the text from index `i`: matches are
   * replaced left to right and the replacement is not scanned again.
   */
  function Unbracket(s: string, i: nat): string
    requires i <= |s|
    decreases |s| - i
  {
    if i == |s| then []
    else
      var b := BracketedKeyLen(s, i);
      if b > 0 then Substring(s, i + 1, i + b - 1) + Unbracket(s, i + b) else [s[i]] + Unbracket(s, i + 1)
  }

  function RemoveSquareBracketsAroundIssueKeys(text: string): string {
    Unbracket(text, 0)
  }

  /** `t` with every character of `cs` deleted. */
  function Without(t: string, cs: set<char>): (r: string)
    ensures |r| <= |t|
  {
    if t == [] then [] else (if t[0] in cs then [] else [t[0]]) + Without(t[1..], cs)
  }

  lemma {:induction false} WithoutAppend(a: string, b: string, cs: set<char>)
    ensures Without(a + b, cs) == Without(a, cs) + Without(b, cs)
  {
    if a == [] {
      assert a + b == b;
    } else {
      assert (a + b)[1..] == a[1..] + b;
      WithoutAppend(a[1..], b, cs);
    }
  }

  /** The text from index `i` with every character of `cs` deleted. */
  function WithoutFrom(s: string, i: nat, cs: set<char>): (r: string)
    requires i <= |s|
    ensures |r| <= |s| - i
    decreases |s| - i
  {
    if i == |s| then [] else (if s[i] in cs then [] else [s[i]]) + WithoutFrom(s, i + 1, cs)
  }

  /** A stretch free of the struck characters is kept whole. */
  lemma {:induction false} WithoutFromStretch(s: string, lo: nat, hi: nat, cs: set<char>)
    requires lo <= hi <= |s|
    requires forall j :: lo <= j < hi ==> s[j] !in cs
    ensures WithoutFrom(s, lo, cs) == Substring(s, lo, hi) + WithoutFrom(s, hi, cs)
    decreases hi - lo
  {
    if lo < hi {
      WithoutFromStretch(s, lo + 1, hi, cs);
      assert Substring(s, lo, hi) + WithoutFrom(s, hi, cs) ==
             [s[lo]] + (Substring(s, lo + 1, hi) + WithoutFrom(s, hi, cs));
    }
  }

  lemma {:induction false} WithoutClean(t: string, cs: set<char>)
    requires forall j :: 0 <= j < |t| ==> t[j] !in cs
    ensures Without(t, cs) == t
  {
    if t != [] {
      WithoutClean(t[1..], cs);
    }
  }

  const Brackets: set<char> := {'[', ']'}

  /** A bracketed key holds no bracket between its brackets. */
  lemma BracketedKeyClean(s: string, i: nat)
    requires i < |s| && BracketedKeyLen(s, i) > 0
    ensures forall j :: i + 1 <= j < i + BracketedKeyLen(s, i) - 1 ==> s[j] !in Brackets
  {
    forall j | i + 1 <= j < i + BracketedKeyLen(s, i) - 1 ensures s[j] !in Brackets {
      KeyHasNoPrefixChar(s, i + 1, j);
    }
  }

  /** A bracketed stretch `[...]` loses its brackets and keeps what is inside. */
  lemma BracketedStep(s: string, i: nat, b: nat, rest: string)
    requires 2 <= b && i + b <= |s| && s[i] == '[' && s[i + b - 1] == ']'
    requires forall j :: i + 1 <= j < i + b - 1 ==> s[j] !in Brackets
    requires Without(rest, Brackets) == WithoutFrom(s, i + b, Brackets)
    ensures Without(Substring(s, i + 1, i + b - 1) + rest, Brackets) == WithoutFrom(s, i, Brackets)
  {
    var key := Substring(s, i + 1, i + b - 1);
    WithoutAppend(key, rest, Brackets);
    WithoutClean(key, Brackets);
    WithoutFromStruck(s, i, Brackets);
    WithoutFromStretch(s, i + 1, i + b - 1, Brackets);
    WithoutFromStruck(s, i + b - 1, Brackets);
    assert i + b - 1 + 1 == i + b;
  }

  /** A struck character is deleted. */
  lemma WithoutFromStruck(s: string, k: nat, cs: set<char>)
    requires k < |s| && s[k] in cs
    ensures WithoutFrom(s, k, cs) == WithoutFrom(s, k + 1, cs)
  {
  }

  /**
   * Removing brackets deletes some `[` and `]` and keeps every other
   * character in its order: with all brackets struck out, input and output
   * read the same.
   */
  lemma {:induction false} UnbracketDeletesBrackets(s: string, i: nat)
    requires i <= |s|
    ensures Without(Unbracket(s, i), Brackets) == WithoutFrom(s, i, Brackets)
    decreases |s| - i
  {
    if i < |s| {
      var b := BracketedKeyLen(s, i);
      if b > 0 {
        UnbracketDeletesBrackets(s, i + b);
        BracketedDeletesBrackets(s, i, b);
      } else {
        UnbracketDeletesBrackets(s, i + 1);
        PlainDeletesBrackets(s, i);
      }
    }
  }

  /** The step of UnbracketDeletesBrackets over a bracketed key. */
  lemma BracketedDeletesBrackets(s: string, i: nat, b: nat)
    requires i < |s| && b == BracketedKeyLen(s, i) > 0
    requires Without(Unbracket(s, i + b), Brackets) == WithoutFrom(s, i + b, Brackets)
    ensures Without(Unbracket(s, i), Brackets) == WithoutFrom(s, i, Brackets)
  {
    UnbracketKeyStep(s, i, b);
    BracketedKeyClean(s, i);
    BracketedStep(s, i, b, Unbracket(s, i + b));
  }

  /** The step of UnbracketDeletesBrackets over any other character. */
  lemma PlainDeletesBrackets(s: string, i: nat)
    requires i < |s| && BracketedKeyLen(s, i) == 0
    requires Without(Unbracket(s, i + 1), Brackets) == WithoutFrom(s, i + 1, Brackets)
    ensures Without(Unbracket(s, i), Brackets) == WithoutFrom(s, i, Brackets)
  {
    UnbracketPlainStep(s, i);
    WithoutAppend([s[i]], Unbracket(s, i + 1), Brackets);
  }

  /** One step of Unbracket over a bracketed key. */
  lemma UnbracketKeyStep(s: string, i: nat, b: nat)
    requires i < |s| && b == BracketedKeyLen(s, i) > 0
    ensures Unbracket(s, i) == Substring(s, i + 1, i + b - 1) + Unbracket(s, i + b)
  {
  }

  /** One step of Unbracket over any other character. */
  lemma UnbracketPlainStep(s: string, i: nat)
    requires i < |s| && BracketedKeyLen(s, i) == 0
    ensures Unbracket(s, i) == [s[i]] + Unbracket(s, i + 1)
  {
  }

  /** A bracketed key at index `i` loses its brackets. */
  lemma UnbracketKey(s: string, i: nat, key: string)
    requires IsKey(key) && i + |key| + 2 <= |s|
    requires s[i] == '[' && HasAt(s, i + 1, key) && s[i + 1 + |key|] == ']'
    ensures Unbracket(s, i) == key + Unbracket(s, i + |key| + 2)
  {
    KeyLenOfKey(s, i + 1, key);
    HasAtSubstring(s, i + 1, key);
    UnbracketReplace(s, i, key);
  }

  /** Unbracket puts the key of a `[KEY]` match in place of the match. */
  lemma UnbracketReplace(s: string, i: nat, key: string)
    requires i < |s| && BracketedKeyLen(s, i) == |key| + 2 && Substring(s, i + 1, i + 1 + |key|) == key
    ensures Unbracket(s, i) == key + Unbracket(s, i + |key| + 2)
  {
    var b := BracketedKeyLen(s, i);
    UnbracketKeyStep(s, i, b);
    assert i + b - 1 == i + 1 + |key|;
    assert i + b == i + |key| + 2;
  }

  /** A text without an opening bracket is left as it is. */
  lemma {:induction false} UnbracketNoBracket(s: string, i: nat)
    requires i <= |s|
    requires forall j :: i <= j < |s| ==> s[j] != '['
    ensures Unbracket(s, i) == s[i..]
    decreases |s| - i
  {
    if i < |s| {
      UnbracketNoBracket(s, i + 1);
      assert s[i..] == [s[i]] + s[i + 1..];
    }
  }

  /** No two newlines stand next to each other in `t` from index `i` on. */
  predicate NoDoubleNewline(t: string, i: nat) {
    forall j :: i <= j < |t| - 1 ==> !(t[j] == '\n' && t[j + 1] == '\n')
  }

  /** Removing brackets keeps the first character a newline exactly when it was one. */
  lemma UnbracketFirst(s: string, i: nat)
    requires i < |s|
    ensures |Unbracket(s, i)| > 0 && (Unbracket(s, i)[0] == '\n' <==> s[i] == '\n')
  {
    var b := BracketedKeyLen(s, i);
    if b > 0 {
      UnbracketKeyStep(s, i, b);
      KeyHasNoPrefixChar(s, i + 1, i + 1);
    } else {
      UnbracketPlainStep(s, i);
    }
  }

  /** Removing brackets around keys never puts two newlines side by side. */
  lemma {:induction false} UnbracketKeepsNoDoubleNewline(s: string, i: nat)
    requires i <= |s| && NoDoubleNewline(s, i)
    ensures NoDoubleNewline(Unbracket(s, i), 0)
    decreases |s| - i
  {
    if i < |s| {
      var b := BracketedKeyLen(s, i);
      if b > 0 {
        UnbracketKeepsNoDoubleNewline(s, i + b);
        BracketedKeepsNoDoubleNewline(s, i, b);
      } else {
        UnbracketKeepsNoDoubleNewline(s, i + 1);
        PlainKeepsNoDoubleNewline(s, i);
      }
    }
  }

  /** The step of UnbracketKeepsNoDoubleNewline over a bracketed key: the key holds no newline. */
  lemma BracketedKeepsNoDoubleNewline(s: string, i: nat, b: nat)
    requires i < |s| && b == BracketedKeyLen(s, i) > 0
    requires NoDoubleNewline(Unbracket(s, i + b), 0)
    ensures NoDoubleNewline(Unbracket(s, i), 0)
  {
    UnbracketKeyStep(s, i, b);
    var key := Substring(s, i + 1, i + b - 1);
    forall j | 0 <= j < |key| ensures key[j] != '\n' {
      KeyHasNoPrefixChar(s, i + 1, i + 1 + j);
    }
    NoDoubleNewlineAppend(key, Unbracket(s, i + b));
  }

  /** The step of UnbracketKeepsNoDoubleNewline over any other character. */
  lemma PlainKeepsNoDoubleNewline(s: string, i: nat)
    requires i < |s| && BracketedKeyLen(s, i) == 0 && NoDoubleNewline(s, i)
    requires NoDoubleNewline(Unbracket(s, i + 1), 0)
    ensures NoDoubleNewline(Unbracket(s, i), 0)
  {
    UnbracketPlainStep(s, i);
    if i + 1 < |s| {
      UnbracketFirst(s, i + 1);
    }
    NoDoubleNewlineAppend([s[i]], Unbracket(s, i + 1));
  }

  /** Two texts free of double newlines join into one when they do not meet at two newlines. */
  lemma NoDoubleNewlineAppend(a: string, b: string)
    requires NoDoubleNewline(a, 0) && NoDoubleNewline(b, 0)
    requires a == [] || b == [] || !(a[|a| - 1] == '\n' && b[0] == '\n')
    ensures NoDoubleNewline(a + b, 0)
  {
    var t := a + b;
    forall j | 0 <= j < |t| - 1 ensures !(t[j] == '\n' && t[j + 1] == '\n') {
      if j + 1 < |a| {
        assert t[j] == a[j] && t[j + 1] == a[j + 1];
      } else if j >= |a| {
        assert t[j] == b[j - |a|] && t[j + 1] == b[j + 1 - |a|];
      }
    }
  }

  /** `re.sub` of `\n+` by a single newline, on the text from index `i`. */
  function CollapseNewlines(s: string, i: nat): (r: string)
    requires i <= |s|
    ensures NoDoubleNewline(r, 0)
    ensures i < |s| ==> |r| > 0 && r[0] == s[i]
    decreases |s| - i
  {
    if i == |s| then []
    else if s[i] == '\n' && i + 1 < |s| && s[i + 1] == '\n' then CollapseNewlines(s, i + 1)
    else [s[i]] + CollapseNewlines(s, i + 1)
  }

  /** Collapsing deletes some newlines and keeps every other character in its order. */
  lemma {:induction false} CollapseDeletesNewlines(s: string, i: nat)
    requires i <= |s|
    ensures Without(CollapseNewlines(s, i), {'\n'}) == WithoutFrom(s, i, {'\n'})
    decreases |s| - i
  {
    if i < |s| {
      CollapseDeletesNewlines(s, i + 1);
      WithoutAppend([s[i]], CollapseNewlines(s, i + 1), {'\n'});
    }
  }

  /** A text without two adjacent newlines is left as it is. */
  lemma {:induction false} CollapseNewlinesKeeps(s: string, i: nat)
    requires i <= |s| && NoDoubleNewline(s, i)
    ensures CollapseNewlines(s, i) == s[i..]
    decreases |s| - i
  {
    if i < |s| {
      CollapseNewlinesKeeps(s, i + 1);
      assert s[i..] == [s[i]] + s[i + 1..];
    }
  }

  /** The text `Closes ` (with its space) stands at index `i`. */
  predicate ClosesAt(s: string, i: nat) {
    i + 7 <= |s| && s[i] == 'C' && s[i + 1] == 'l' && s[i + 2] == 'o' && s[i + 3] == 's' && s[i + 4] == 'e'
    && s[i + 5] == 's' && s[i + 6] == ' '
  }

  /** Length of the text `Closes ([a-zA-Z]+-\d+)` matches at index `i`, or 0. */
  function ClosesLen(s: string, i: nat): (r: nat)
    requires i <= |s|
    ensures i + r <= |s|
  {
    if ClosesAt(s, i) && KeyLen(s, i + 7) > 0 then 7 + KeyLen(s, i + 7) else 0
  }

  /** `re.sub` deleting every `Closes KEY`, left to right, from index `i`. */
  function DropCloses(s: string, i: nat): string
    requires i <= |s|
    decreases |s| - i
  {
    if i == |s| then []
    else if ClosesLen(s, i) > 0 then DropCloses(s, i + ClosesLen(s, i))
    else [s[i]] + DropCloses(s, i + 1)
  }

  /** A `Closes KEY` at index `i` is deleted. */
  lemma DropClosesKey(s: string, i: nat, key: string)
    requires IsKey(key) && ClosesAt(s, i) && HasAt(s, i + 7, key)
    requires i + 7 + |key| == |s| || !IsDigit(s[i + 7 + |key|])
    ensures DropCloses(s, i) == DropCloses(s, i + 7 + |key|)
  {
    KeyLenOfKey(s, i + 7, key);
    DropClosesSkip(s, i, key);
  }

  /** DropCloses skips a `Closes KEY` match. */
  lemma DropClosesSkip(s: string, i: nat, key: string)
    requires i < |s| && ClosesLen(s, i) == 7 + |key|
    ensures DropCloses(s, i) == DropCloses(s, i + 7 + |key|)
  {
    DropClosesStep(s, i);
    assert i + ClosesLen(s, i) == i + 7 + |key|;
  }

  /** One step of DropCloses over a `Closes KEY`. */
  lemma DropClosesStep(s: string, i: nat)
    requires i < |s| && ClosesLen(s, i) > 0
    ensures DropCloses(s, i) == DropCloses(s, i + ClosesLen(s, i))
  {
  }

  /** The text `Resolve ` (with its space) stands at index `i`. */
  predicate ResolveAt(s: string, i: nat) {
    i + 8 <= |s| && s[i] == 'R' && s[i + 1] == 'e' && s[i + 2] == 's' && s[i + 3] == 'o' && s[i + 4] == 'l'
    && s[i + 5] == 'v' && s[i + 6] == 'e' && s[i + 7] == ' '
  }

  /** Length of the text `Resolve ([a-zA-Z]+-\d+)` matches at index `i`, or 0. */
  function ResolveLen(s: string, i: nat): (r: nat)
    requires i <= |s|
    ensures r == 0 || (r > 8 && i + r <= |s| && KeyLen(s, i + 8) == r - 8)
  {
    if ResolveAt(s, i) && KeyLen(s, i + 8) > 0 then 8 + KeyLen(s, i + 8) else 0
  }

  /** `re.sub` of `Resolve KEY` by `KEY`, left to right, from index `i`. */
  function DropResolve(s: string, i: nat): string
    requires i <= |s|
    decreases |s| - i
  {
    if i == |s| then []
    else if ResolveLen(s, i) > 0 then Substring(s, i + 8, i + ResolveLen(s, i)) + DropResolve(s, i + ResolveLen(s, i))
    else [s[i]] + DropResolve(s, i + 1)
  }

  /** A `Resolve KEY` at index `i` becomes `KEY`. */
  lemma DropResolveKey(s: string, i: nat, key: string)
    requires IsKey(key) && ResolveAt(s, i) && HasAt(s, i + 8, key)
    requires i + 8 + |key| == |s| || !IsDigit(s[i + 8 + |key|])
    ensures DropResolve(s, i) == key + DropResolve(s, i + 8 + |key|)
  {
    KeyLenOfKey(s, i + 8, key);
    HasAtSubstring(s, i + 8, key);
    DropResolveReplace(s, i, key);
  }

  /** DropResolve puts the key of a `Resolve KEY` match in place of the match. */
  lemma DropResolveReplace(s: string, i: nat, key: string)
    requires i < |s| && ResolveLen(s, i) == 8 + |key| && Substring(s, i + 8, i + 8 + |key|) == key
    ensures DropResolve(s, i) == key + DropResolve(s, i + 8 + |key|)
  {
    DropResolveStep(s, i);
    assert i + ResolveLen(s, i) == i + 8 + |key|;
  }

  /** One step of DropResolve over a `Resolve KEY`. */
  lemma DropResolveStep(s: string, i: nat)
    requires i < |s| && ResolveLen(s, i) > 0
    ensures DropResolve(s, i) == Substring(s, i + 8, i + ResolveLen(s, i)) + DropResolve(s, i + ResolveLen(s, i))
  {
  }

  /**
   * sanitize_description: delete every `Closes KEY`, collapse runs of
   * newlines, then remove the brackets around keys.
   */
  function SanitizeDescription(description: string): (r: string)
    ensures NoDoubleNewline(r, 0)
  {
    var collapsed := CollapseNewlines(DropCloses(description, 0), 0);
    UnbracketKeepsNoDoubleNewline(collapsed, 0);
    RemoveSquareBracketsAroundIssueKeys(collapsed)
  }

  /** sanitize_title: turn every `Resolve KEY` into `KEY`, then remove the brackets around keys. */
  function SanitizeTitle(title: string): string
  {
    RemoveSquareBracketsAroundIssueKeys(DropResolve(title, 0))
  }
}
