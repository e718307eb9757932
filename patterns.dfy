/** Hand-written matchers for the five regular expressions of the extractor
    and for `os.path.splitext`. Each matcher decides exactly one pattern, over
    ASCII: `\d` is `0`-`9`, `[A-Za-z]` is an ASCII letter and `.` is any
    character except a newline. */
module Patterns {
  import opened Wrappers
  import opened Text

  predicate IsSep(c: char) { c == '-' || c == '_' }

  predicate NoNewline(s: string) { NoneIn(s, {'\n'}) }

  // ---------------------------------------------------------------------
  // folder_pattern = ^\d+[A-Za-z]*\d{2}(?:[-_].+){2,}   (estrazione_Path_Tag.py:62)

  /** `\d+[A-Za-z]*\d{2}` matches the whole of `h`. */
  predicate FolderHead(h: string)
  {
    && |h| >= 3
    && AllDigits(h[|h| - 2..])
    && exists a | 1 <= a <= |h| - 2 :: AllDigits(h[..a]) && AllLetters(h[a..|h| - 2])
  }

  /** `[-_].+` matches the whole of `p`. */
  predicate SepPiece(p: string)
  {
    |p| >= 2 && IsSep(p[0]) && NoNewline(p[1..])
  }

  /** `folder_pattern.match(s)` succeeds. `match` anchors only at the start,
      so `(?:[-_].+){2,}` matches a prefix of the rest exactly when two of its
      pieces do: the split points `k`, `j`, `e` are the ends of the head and
      of the two pieces. */
  predicate MatchesFolderPattern(s: string)
  {
    exists k, j, e | 0 <= k < |s| && k < j < |s| && j < e <= |s| ::
      FolderHead(s[..k]) && SepPiece(s[k..j]) && SepPiece(s[j..e])
  }

  /** What a matching folder name looks like: it starts with a digit, the
      head is followed by a separator and holds at least three characters,
      and there is a second separator later on. */
  lemma FolderPatternShape(s: string)
    requires MatchesFolderPattern(s)
    ensures |s| >= 7 && IsDigit(s[0])
    ensures exists k, j :: 3 <= k && k + 1 < j < |s| - 1 && IsSep(s[k]) && IsSep(s[j])
  {
    var k, j, e :| 0 <= k < |s| && k < j < |s| && j < e <= |s| &&
      FolderHead(s[..k]) && SepPiece(s[k..j]) && SepPiece(s[j..e]);
    var a :| 1 <= a <= |s[..k]| - 2 && AllDigits(s[..k][..a]) && AllLetters(s[..k][a..|s[..k]| - 2]);
    assert s[0] == s[..k][..a][0];
    assert s[k] == s[k..j][0];
    assert s[j] == s[j..e][0];
  }

  /** A name that starts with four digits, a separator, a piece, another
      separator and a piece matches (two digits of the run are the `\d+`, two
      are the `\d{2}`). */
  lemma FolderPatternYear(s: string, j: nat)
    requires |s| >= 5 && AllDigits(s[..4]) && IsSep(s[4])
    requires 5 < j < |s| - 1 && IsSep(s[j]) && NoNewline(s[5..j + 2])
    ensures MatchesFolderPattern(s)
  {
    var h := s[..4];
    assert AllDigits(h[..2]) && AllLetters(h[2..2]) && AllDigits(h[2..]);
    assert FolderHead(h);
    assert s[4..j][1..] == s[5..j + 2][..j - 5];
    assert SepPiece(s[4..j]);
    assert s[j..j + 2][1..] == s[5..j + 2][j - 4..];
    assert SepPiece(s[j..j + 2]);
    assert FolderHead(s[..4]) && SepPiece(s[4..j]) && SepPiece(s[j..j + 2]);
  }

  // The same pattern decided by a left-to-right scan, the way a regular
  // expression engine runs it: the digit run, then either a separator or a
  // letter run and two digits, then a separator, and a second separator
  // before the line ends with at least one character after it.

  /** The length of the run of digits that starts at `i`. */
  function DigitRun(s: string, i: nat): (n: nat)
    requires i <= |s|
    ensures i + n <= |s| && AllDigits(s[i..i + n])
    ensures i + n < |s| ==> !IsDigit(s[i + n])
    decreases |s| - i
  {
    if i < |s| && IsDigit(s[i]) then
      var n := DigitRun(s, i + 1);
      assert s[i..i + 1 + n] == [s[i]] + s[i + 1..i + 1 + n];
      1 + n
    else 0
  }

  /** The length of the run of letters that starts at `i`. */
  function LetterRun(s: string, i: nat): (n: nat)
    requires i <= |s|
    ensures i + n <= |s| && AllLetters(s[i..i + n])
    ensures i + n < |s| ==> !IsLetter(s[i + n])
    decreases |s| - i
  {
    if i < |s| && IsLetter(s[i]) then
      var n := LetterRun(s, i + 1);
      assert s[i..i + 1 + n] == [s[i]] + s[i + 1..i + 1 + n];
      1 + n
    else 0
  }

  /** The index of the first newline at or after `i`, or `|s|`. */
  function LineEnd(s: string, i: nat): (q: nat)
    requires i <= |s|
    ensures i <= q <= |s| && NoNewline(s[i..q])
    ensures q < |s| ==> s[q] == '\n'
    decreases |s| - i
  {
    if i == |s| || s[i] == '\n' then i else LineEnd(s, i + 1)
  }

  /** Some index in `[lo, hi)` holds a separator. */
  predicate SepBetween(s: string, lo: nat, hi: nat)
    requires hi <= |s|
    decreases hi - lo
  {
    lo < hi && (IsSep(s[lo]) || SepBetween(s, lo + 1, hi))
  }

  lemma {:induction false} SepBetweenIff(s: string, lo: nat, hi: nat)
    requires hi <= |s|
    ensures SepBetween(s, lo, hi) <==> exists j :: lo <= j < hi && IsSep(s[j])
    decreases hi - lo
  {
    if lo < hi {
      SepBetweenIff(s, lo + 1, hi);
    }
  }

  /** `(?:[-_].+){2,}` matches a prefix of `s[k..]`, given the separator at `k`:
      the line goes on past `k + 1`, and a second separator follows, with a
      character after it, before the line ends. */
  predicate PiecesFrom(s: string, k: nat)
    requires k < |s|
  {
    var q := LineEnd(s, k + 1);
    q >= 1 && SepBetween(s, k + 2, q - 1)
  }

  /** The end of the head `\d+[A-Za-z]*\d{2}`, when a separator follows it. */
  function HeadEnd(s: string): (k: Option<nat>)
    ensures k.Some? ==> k.value < |s| && IsSep(s[k.value])
  {
    var d := DigitRun(s, 0);
    if d == 0 || d == |s| then None
    else if IsSep(s[d]) then (if d >= 3 then Some(d) else None)
    else
      var l := LetterRun(s, d);
      var k := d + l + 2;
      if l >= 1 && k < |s| && IsDigit(s[d + l]) && IsDigit(s[d + l + 1]) && IsSep(s[k])
      then Some(k) else None
  }

  /** The scan: `folder_pattern.match(s)` succeeds. */
  predicate FolderScan(s: string)
  {
    match HeadEnd(s)
    case None => false
    case Some(k) => PiecesFrom(s, k)
  }

  /** A digit run that stops at `a` has length `a - i`. */
  lemma {:induction false} DigitRunIs(s: string, i: nat, a: nat)
    requires i <= a <= |s| && AllDigits(s[i..a]) && (a == |s| || !IsDigit(s[a]))
    ensures DigitRun(s, i) == a - i
    decreases a - i
  {
    if i < a {
      assert s[i] == s[i..a][0];
      assert s[i + 1..a] == s[i..a][1..];
      DigitRunIs(s, i + 1, a);
    }
  }

  /** A letter run that stops at `a` has length `a - i`. */
  lemma {:induction false} LetterRunIs(s: string, i: nat, a: nat)
    requires i <= a <= |s| && AllLetters(s[i..a]) && (a == |s| || !IsLetter(s[a]))
    ensures LetterRun(s, i) == a - i
    decreases a - i
  {
    if i < a {
      assert s[i] == s[i..a][0];
      assert s[i + 1..a] == s[i..a][1..];
      LetterRunIs(s, i + 1, a);
    }
  }

  /** The line does not end before a newline-free stretch does. */
  lemma LineEndAfter(s: string, i: nat, m: nat)
    requires i <= m <= |s| && NoNewline(s[i..m])
    ensures LineEnd(s, i) >= m
  {
  }

  /** The head the scan finds matches `\d+[A-Za-z]*\d{2}`. */
  lemma ScanHead(s: string)
    requires HeadEnd(s).Some?
    ensures FolderHead(s[..HeadEnd(s).value])
  {
    var k := HeadEnd(s).value;
    var d := DigitRun(s, 0);
    var h := s[..k];
    if IsSep(s[d]) {
      assert AllDigits(h[..k - 2]) && AllLetters(h[k - 2..k - 2]) && AllDigits(h[k - 2..]);
    } else {
      var l := LetterRun(s, d);
      assert h[..d] == s[..d] && h[d..k - 2] == s[d..d + l];
      assert h[k - 2..] == [s[d + l], s[d + l + 1]];
    }
  }

  /** The two pieces the scan finds after the head. */
  lemma ScanPieces(s: string, k: nat)
    requires k < |s| && IsSep(s[k]) && PiecesFrom(s, k)
    ensures exists j :: k < j < |s| - 1 && SepPiece(s[k..j]) && SepPiece(s[j..j + 2])
  {
    var q := LineEnd(s, k + 1);
    SepBetweenIff(s, k + 2, q - 1);
    var j :| k + 2 <= j < q - 1 && IsSep(s[j]);
    assert NoNewline(s[k..j][1..]) by {
      forall t | 0 <= t < |s[k..j][1..]| ensures s[k..j][1..][t] != '\n' {
        assert s[k..j][1..][t] == s[k + 1..q][t];
      }
    }
    assert s[j + 1] != '\n' by { assert s[j + 1] == s[k + 1..q][j - k]; }
    assert s[j..j + 2][1..] == [s[j + 1]];
    assert SepPiece(s[k..j]) && SepPiece(s[j..j + 2]);
  }

  lemma ScanMatches(s: string)
    requires FolderScan(s)
    ensures MatchesFolderPattern(s)
  {
    var k := HeadEnd(s).value;
    ScanHead(s);
    ScanPieces(s, k);
    var j :| k < j < |s| - 1 && SepPiece(s[k..j]) && SepPiece(s[j..j + 2]);
    assert FolderHead(s[..k]) && SepPiece(s[k..j]) && SepPiece(s[j..j + 2]);
  }

  /** A head made of digits only. */
  lemma HeadOfDigits(s: string, k: nat, a: nat)
    requires k < |s| && IsSep(s[k]) && a == k - 2 >= 1
    requires AllDigits(s[..k][..a]) && AllDigits(s[..k][a..])
    ensures HeadEnd(s) == Some(k)
  {
    var h := s[..k];
    assert AllDigits(s[..k]) by {
      forall t | 0 <= t < k ensures IsDigit(s[t]) {
        if t < a { assert s[t] == h[..a][t]; } else { assert s[t] == h[a..][t - a]; }
      }
    }
    DigitRunIs(s, 0, k);
  }

  /** A head with letters between its digits. */
  lemma HeadWithLetters(s: string, k: nat, a: nat)
    requires k < |s| && IsSep(s[k]) && 1 <= a < k - 2
    requires AllDigits(s[..a]) && AllLetters(s[a..k - 2]) && IsDigit(s[k - 2]) && IsDigit(s[k - 1])
    ensures HeadEnd(s) == Some(k)
  {
    assert IsLetter(s[a]) by { assert s[a] == s[a..k - 2][0]; }
    assert s[0..a] == s[..a];
    DigitRunIs(s, 0, a);
    LetterRunIs(s, a, k - 2);
    assert !IsSep(s[a]) && !IsLetter(s[k - 2]);
    var d := DigitRun(s, 0);
    var l := LetterRun(s, d);
    assert d == a && l == k - 2 - a && d + l + 2 == k;
  }

  /** A head followed by a separator is the one the scan finds. */
  lemma HeadEndOf(s: string, k: nat)
    requires k < |s| && IsSep(s[k]) && FolderHead(s[..k])
    ensures HeadEnd(s) == Some(k)
  {
    var h := s[..k];
    var a :| 1 <= a <= |h| - 2 && AllDigits(h[..a]) && AllLetters(h[a..|h| - 2]);
    if a == k - 2 {
      HeadOfDigits(s, k, a);
    } else {
      assert s[..a] == h[..a];
      assert s[a..k - 2] == h[a..|h| - 2];
      assert s[k - 2] == h[|h| - 2..][0];
      assert s[k - 1] == h[|h| - 2..][1];
      HeadWithLetters(s, k, a);
    }
  }

  /** Two pieces after the head are found by the scan. */
  lemma PiecesOf(s: string, k: nat, j: nat, e: nat)
    requires 0 <= k < j < e <= |s| && SepPiece(s[k..j]) && SepPiece(s[j..e])
    ensures PiecesFrom(s, k)
  {
    assert IsSep(s[j]) by { assert s[j] == s[j..e][0]; }
    assert NoNewline(s[k + 1..e]) by {
      forall t | k + 1 <= t < e ensures s[t] != '\n' {
        if t < j { assert s[t] == s[k..j][1..][t - k - 1]; }
        else if t > j { assert s[t] == s[j..e][1..][t - j - 1]; }
      }
    }
    LineEndAfter(s, k + 1, e);
    SepBetweenIff(s, k + 2, LineEnd(s, k + 1) - 1);
  }

  lemma MatchesScan(s: string)
    requires MatchesFolderPattern(s)
    ensures FolderScan(s)
  {
    var k, j, e :| 0 <= k < |s| && k < j < |s| && j < e <= |s| &&
      FolderHead(s[..k]) && SepPiece(s[k..j]) && SepPiece(s[j..e]);
    assert IsSep(s[k]) by { assert s[k] == s[k..j][0]; }
    HeadEndOf(s, k);
    PiecesOf(s, k, j, e);
  }

  /** The scan decides the folder pattern. */
  lemma FolderScanIff(s: string)
    ensures FolderScan(s) <==> MatchesFolderPattern(s)
  {
    if FolderScan(s) { ScanMatches(s); }
    if MatchesFolderPattern(s) { MatchesScan(s); }
  }

  // ---------------------------------------------------------------------
  // `$` without the MULTILINE flag

  /** `$` holds at index `i`: the end of `s`, or just before a newline that
      ends it. */
  predicate EndAnchor(s: string, i: nat)
  {
    i == |s| || (i + 1 == |s| && s[i] == '\n')
  }

  // ---------------------------------------------------------------------
  // re.search(r'(\d{4})$', commessa)   (estrazione_Path_Tag.py:92)

  /** Four digits start at `i` and are followed by `$`. */
  predicate YearAt(s: string, i: nat)
  {
    i + 4 <= |s| && AllDigits(s[i..i + 4]) && EndAnchor(s, i + 4)
  }

  /** The search for `(\d{4})$`: the four digits before the end of the
      string, or before its final newline. */
  function YearAtEnd(s: string): (r: Option<string>)
    ensures r.Some? ==> exists i: nat :: YearAt(s, i) && r.value == s[i..i + 4]
    ensures r.None? ==> forall i: nat :: !YearAt(s, i)
  {
    var e := if |s| > 0 && s[|s| - 1] == '\n' then |s| - 1 else |s|;
    if e >= 4 && AllDigits(s[e - 4..e]) then
      assert YearAt(s, e - 4);
      Some(s[e - 4..e])
    else
      assert forall i: nat :: !YearAt(s, i);
      None
  }

  /** At most one place can hold the year, so the search has only one
      candidate. */
  lemma YearAtUnique(s: string, i: nat, j: nat)
    requires YearAt(s, i) && YearAt(s, j)
    ensures i == j
  {
  }

  /** For a code that does not end with a newline, the year is defined
      exactly when its last four characters are digits, and is those four. */
  lemma YearOfCode(c: string)
    requires |c| == 0 || c[|c| - 1] != '\n'
    ensures YearAtEnd(c).Some? <==> |c| >= 4 && AllDigits(c[|c| - 4..])
    ensures YearAtEnd(c).Some? ==> YearAtEnd(c).value == c[|c| - 4..]
  {
    if |c| >= 4 {
      assert c[|c| - 4..|c|] == c[|c| - 4..];
    }
  }

  // ---------------------------------------------------------------------
  // re.match(r'^(.*?)(?:-inv\d.*)?$', tail).group(1)   (estrazione_Path_Tag.py:120-121)

  /** An inventory marker, `-inv` followed by a digit, starts at index `i`. */
  predicate InventoryAt(s: string, i: nat)
  {
    OccursAt(s, "-inv", i) && i + 4 < |s| && IsDigit(s[i + 4])
  }

  /** Once `(.*?)` has taken `s[..L]`, the rest of the pattern matches: an
      inventory marker whose line runs on to `$`, or `$` itself. */
  predicate RestMatchesAt(s: string, L: nat)
    requires L <= |s|
  {
    || (InventoryAt(s, L) && EndAnchor(s, LineEnd(s, L + 5)))
    || EndAnchor(s, L)
  }

  /** The lazy group tries the lengths `L`, `L + 1`, ... in turn and cannot
      take a newline. */
  function LazyGroup(s: string, L: nat): (r: Option<nat>)
    requires L <= |s|
    ensures r.Some? ==> L <= r.value <= |s| && RestMatchesAt(s, r.value) && NoNewline(s[L..r.value])
    ensures r.Some? ==> forall j :: L <= j < r.value ==> !RestMatchesAt(s, j)
    ensures r.None? ==> !NoNewline(s[L..])
    decreases |s| - L
  {
    if RestMatchesAt(s, L) then Some(L)
    else if s[L] == '\n' then
      assert s[L..][0] == '\n';
      None
    else
      var r := LazyGroup(s, L + 1);
      assert r.Some? ==> s[L..r.value] == [s[L]] + s[L + 1..r.value];
      assert r.None? ==> s[L..] == [s[L]] + s[L + 1..];
      r
  }

  /** The lazy group succeeds, at the latest, at any length where the rest
      matches and that it can reach without crossing a newline. */
  lemma {:induction false} LazyGroupReaches(s: string, L: nat, k: nat)
    requires L <= k <= |s| && RestMatchesAt(s, k) && NoNewline(s[L..k])
    ensures LazyGroup(s, L).Some? && LazyGroup(s, L).value <= k
    decreases k - L
  {
    if !RestMatchesAt(s, L) {
      assert s[L..k][0] == s[L];
      assert s[L + 1..k] == s[L..k][1..];
      LazyGroupReaches(s, L + 1, k);
    }
  }

  /** `m_t.group(1)`; `None` when the match fails, which needs a newline. */
  function StripInventory(s: string): (r: Option<string>)
    ensures r.Some? ==> |r.value| <= |s| && r.value == s[..|r.value|] && NoNewline(r.value)
    ensures r.Some? ==> RestMatchesAt(s, |r.value|) && forall j :: 0 <= j < |r.value| ==> !RestMatchesAt(s, j)
    ensures NoNewline(s) ==> r.Some?
  {
    match LazyGroup(s, 0)
    case None =>
      assert s[0..] == s;
      None
    case Some(L) =>
      assert s[0..L] == s[..L];
      Some(s[..L])
  }

  /** The line that runs through a newline-free stretch ends where the line
      from the end of the stretch does. */
  lemma {:induction false} LineEndSkip(s: string, i: nat, m: nat)
    requires i <= m <= |s| && NoNewline(s[i..m])
    ensures LineEnd(s, i) == LineEnd(s, m)
    decreases m - i
  {
    if i < m {
      assert s[i] == s[i..m][0];
      assert s[i + 1..m] == s[i..m][1..];
      LineEndSkip(s, i + 1, m);
    }
  }

  /** A marker holds no newline, so the line through it ends where the line
      after it does. */
  lemma MarkerLine(s: string, i: nat)
    requires InventoryAt(s, i)
    ensures LineEnd(s, i) == LineEnd(s, i + 5)
  {
    assert NoNewline(s[i..i + 5]) by {
      forall t | i <= t < i + 5 ensures s[t] != '\n' {
        if t < i + 4 { assert s[t] == s[i..i + 4][t - i]; }
      }
    }
    LineEndSkip(s, i, i + 5);
  }

  /** A marker before a length where the rest of the pattern matches, on the
      same line, lets the rest match at the marker already. */
  lemma MarkerBefore(s: string, L: nat, j: nat)
    requires L <= |s| && RestMatchesAt(s, L) && NoNewline(s[..L])
    requires InventoryAt(s, j) && j + 5 <= L
    ensures RestMatchesAt(s, j)
  {
    assert s[j + 5..L] == s[..L][j + 5..];
    LineEndSkip(s, j + 5, L);
    if InventoryAt(s, L) {
      MarkerLine(s, L);
    }
  }

  /** Whatever the newlines, the group never holds an inventory marker: the
      pattern would have stopped before it. */
  lemma StripHasNoInventory(s: string)
    ensures StripInventory(s).Some? ==> forall j: nat :: !InventoryAt(StripInventory(s).value, j)
  {
    if StripInventory(s).Some? {
      var r := StripInventory(s).value;
      forall j: nat | InventoryAt(r, j) ensures false {
        InventoryAtPrefix(s, |r|, j);
        MarkerBefore(s, |r|, j);
      }
    }
  }

  /** The first index at or after `from` where an inventory marker starts,
      or `|s|`. */
  function InventoryFrom(s: string, from: nat): (k: nat)
    requires from <= |s|
    ensures from <= k <= |s|
    ensures forall j :: from <= j < k ==> !InventoryAt(s, j)
    ensures k < |s| ==> InventoryAt(s, k)
    decreases |s| - from
  {
    if from == |s| then |s| else if InventoryAt(s, from) then from else InventoryFrom(s, from + 1)
  }

  /** On one line, the title is the prefix before the first inventory
      marker, or the whole string when there is none. */
  function PlainStrip(s: string): (r: string)
    ensures |r| <= |s| && r == s[..|r|]
    ensures forall j :: 0 <= j < |r| ==> !InventoryAt(s, j)
    ensures |r| < |s| ==> InventoryAt(s, |r|)
  {
    s[..InventoryFrom(s, 0)]
  }

  /** On one line, the rest of the pattern matches exactly at a marker and at
      the end. */
  lemma RestMatchesPlain(s: string, j: nat)
    requires NoNewline(s) && j <= |s|
    ensures RestMatchesAt(s, j) <==> InventoryAt(s, j) || j == |s|
  {
    if j < |s| { assert s[j] != '\n'; }
  }

  /** For a string without newlines the regular expression cuts before the
      first marker. */
  lemma StripPlain(s: string)
    requires NoNewline(s)
    ensures StripInventory(s) == Some(PlainStrip(s))
  {
    var k := InventoryFrom(s, 0);
    var L := |StripInventory(s).value|;
    RestMatchesPlain(s, k);
    RestMatchesPlain(s, L);
    assert L == k;
  }

  /** A marker inside a prefix is a marker of the whole string, and a marker
      of the whole string that ends inside the prefix is one of the prefix. */
  lemma InventoryAtPrefix(s: string, n: nat, j: nat)
    requires n <= |s|
    ensures InventoryAt(s[..n], j) ==> InventoryAt(s, j)
    ensures j + 5 <= n && InventoryAt(s, j) ==> InventoryAt(s[..n], j)
  {
    if j + 4 <= n {
      assert s[..n][j..j + 4] == s[j..j + 4];
    }
  }

  /** The stripped title holds no inventory marker. */
  lemma StrippedHasNoInventory(s: string)
    ensures forall j: nat :: !InventoryAt(PlainStrip(s), j)
  {
    var r := PlainStrip(s);
    forall j: nat | InventoryAt(r, j) ensures false {
      InventoryAtPrefix(s, |r|, j);
    }
  }

  /** Without a marker and a newline nothing is stripped. */
  lemma StripWithoutInventory(s: string)
    requires NoNewline(s) && forall j: nat :: !InventoryAt(s, j)
    ensures StripInventory(s) == Some(s)
  {
    StripPlain(s);
    assert |PlainStrip(s)| == |s|;
    assert PlainStrip(s) == s[..|s|] == s;
  }

  /** A marker directly after a marker-free title is cut off together with
      everything after it. */
  lemma StripTitleAndInventory(title: string, d: char, rest: string)
    requires NoNewline(title) && NoNewline(rest)
    requires forall j: nat :: !InventoryAt(title + "-inv", j)
    requires IsDigit(d)
    ensures StripInventory(title + "-inv" + [d] + rest) == Some(title)
  {
    var s := title + "-inv" + [d] + rest;
    assert NoNewline(s) by {
      forall t | 0 <= t < |s| ensures s[t] != '\n' {
        if t < |title| { assert s[t] == title[t]; }
        else if t >= |title| + 5 { assert s[t] == rest[t - |title| - 5]; }
      }
    }
    StripPlain(s);
    assert InventoryAt(s, |title|) by { assert s[|title|..|title| + 4] == "-inv"; }
    assert s[..|title| + 4] == title + "-inv";
    forall j | 0 <= j < |title| ensures !InventoryAt(s, j) {
      InventoryAtPrefix(s, |title| + 4, j);
    }
    assert s[..|title|] == title;
  }

  /** After a final newline is appended, the rest of the pattern still
      matches exactly at a marker and at the old end. */
  lemma RestMatchesNewline(s: string, j: nat)
    requires NoNewline(s) && j <= |s|
    ensures RestMatchesAt(s + "\n", j) <==> InventoryAt(s, j) || j == |s|
  {
    var u := s + "\n";
    assert u[..|s|] == s;
    if j < |s| {
      assert u[j] == s[j];
      if InventoryAt(u, j) || InventoryAt(s, j) {
        assert u[j + 4] != '\n' by {
          if j + 4 < |s| { assert u[j + 4] == s[j + 4]; }
        }
        InventoryAtPrefix(u, |s|, j);
        assert u[j + 5..|s|] == s[j + 5..];
        LineEndAfter(u, j + 5, |s|);
      }
    }
  }

  /** `$` also matches before a final newline, which the title leaves out. */
  lemma StripTrailingNewline(s: string)
    requires NoNewline(s)
    ensures StripInventory(s + "\n") == Some(PlainStrip(s))
  {
    var u := s + "\n";
    var k := InventoryFrom(s, 0);
    RestMatchesNewline(s, k);
    assert u[0..k] == s[..k];
    LazyGroupReaches(u, 0, k);
    var L := |StripInventory(u).value|;
    RestMatchesNewline(s, L);
    assert u[..L] == s[..L];
  }

  /** A newline before the end, with no marker before it, makes the match
      fail. */
  lemma StripFailsAtNewline(a: string, b: string)
    requires NoNewline(a) && |b| >= 1 && forall j: nat :: !InventoryAt(a, j)
    ensures StripInventory(a + "\n" + b).None?
  {
    var u := a + "\n" + b;
    assert u[|a|] == '\n';
    assert u[..|a|] == a;
    forall j | 0 <= j <= |a| ensures !RestMatchesAt(u, j) {
      if j < |a| {
        assert u[j] == a[j];
        if j + 5 <= |a| {
          InventoryAtPrefix(u, |a|, j);
        } else if j + 4 == |a| {
          assert u[j + 4] == '\n';
        } else if j + 4 <= |u| {
          assert u[j..j + 4][|a| - j] == u[|a|];
        }
      }
    }
    if StripInventory(u).Some? {
      assert false;
    }
  }

  // ---------------------------------------------------------------------
  // re.match(rf'^{re.escape(commessa)}-([PDF])\d+', name)   (estrazione_Path_Tag.py:136)

  /** The phase letter of a photograph named `{commessa}-P1...`, `-D1...` or
      `-F1...`; `None` when `commessa` is empty or the name does not start
      that way. */
  function PhaseOf(name: string, commessa: string): (r: Option<char>)
    ensures r.Some? ==> commessa != "" && r.value in {'P', 'D', 'F'}
    ensures r.Some? ==>
      && |name| >= |commessa| + 3 && name[..|commessa|] == commessa && name[|commessa|] == '-'
      && name[|commessa| + 1] == r.value && IsDigit(name[|commessa| + 2])
  {
    var n := |commessa|;
    if commessa != "" && n + 3 <= |name| && name[..n] == commessa && name[n] == '-'
       && name[n + 1] in {'P', 'D', 'F'} && IsDigit(name[n + 2])
    then Some(name[n + 1])
    else None
  }

  /** Every name of the phase shape is recognised, with its letter. */
  lemma PhaseOfShape(commessa: string, phase: char, d: char, rest: string)
    requires commessa != "" && phase in {'P', 'D', 'F'} && IsDigit(d)
    ensures PhaseOf(commessa + "-" + [phase] + [d] + rest, commessa) == Some(phase)
  {
    var name := commessa + "-" + [phase] + [d] + rest;
    assert name[..|commessa|] == commessa;
  }

  // ---------------------------------------------------------------------
  // re.match(r'^M\d+', name)   (estrazione_Path_Tag.py:140)

  predicate AnalysisPrefix(name: string)
  {
    |name| >= 2 && name[0] == 'M' && IsDigit(name[1])
  }

  // ---------------------------------------------------------------------
  // os.path.splitext(name)[1].lower().lstrip('.')   (estrazione_Path_Tag.py:124)

  predicate OnlyDots(s: string) { forall i :: 0 <= i < |s| ==> s[i] == '.' }

  /** The lower-cased extension, without its dot: the text after the last
      dot, unless every character before that dot is a dot too (a name such
      as `.bashrc` has no extension). */
  function Extension(name: string): (e: string)
    ensures NoneIn(e, {'.'})
    ensures forall i :: 0 <= i < |e| ==> !IsUpper(e[i])
    ensures NoneIn(name, {'.'}) ==> e == ""
  {
    match LastIndex(name, '.')
    case None => ""
    case Some(d) => if OnlyDots(name[..d]) then "" else Lower(name[d + 1..])
  }

  /** A name made of a stem that is not only dots, a dot and a dot-free
      suffix has that suffix, lower-cased, as its extension. */
  lemma ExtensionOfSuffix(stem: string, suffix: string)
    requires !OnlyDots(stem) && NoneIn(suffix, {'.'})
    ensures Extension(stem + "." + suffix) == Lower(suffix)
  {
    var name := stem + "." + suffix;
    assert name[|stem|] == '.';
    assert name[|stem| + 1..] == suffix;
    assert name[..|stem|] == stem;
  }

  /** A non-empty extension is what follows some dot of the name. */
  lemma ExtensionIsSuffix(name: string)
    requires Extension(name) != ""
    ensures exists d :: 0 <= d < |name| && name[d] == '.' && !OnlyDots(name[..d])
              && NoneIn(name[d + 1..], {'.'}) && Extension(name) == Lower(name[d + 1..])
  {
    var d := LastIndex(name, '.').value;
    assert name[d] == '.';
  }
}
