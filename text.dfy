/** The string operations of Python's `str` that the extractor relies on,
    restricted to ASCII: character classes, `lower`, `upper`, `title`,
    `split` (with and without a limit), `join`, `find`, `replace` and the
    search for the first element of a list that satisfies a test. */
module Text {
  import opened Wrappers

  // ---------------------------------------------------------------------
  // Character classes (ASCII only)

  predicate IsDigit(c: char) { '0' <= c <= '9' }
  predicate IsUpper(c: char) { 'A' <= c <= 'Z' }
  predicate IsLower(c: char) { 'a' <= c <= 'z' }
  predicate IsLetter(c: char) { IsUpper(c) || IsLower(c) }

  predicate AllDigits(s: string) { forall i :: 0 <= i < |s| ==> IsDigit(s[i]) }
  predicate AllLetters(s: string) { forall i :: 0 <= i < |s| ==> IsLetter(s[i]) }

  /** No character of `s` belongs to `seps`. */
  predicate NoneIn(s: string, seps: set<char>) { forall i :: 0 <= i < |s| ==> s[i] !in seps }

  // ---------------------------------------------------------------------
  // Case mapping

  function LowerChar(c: char): (r: char)
    ensures IsUpper(c) ==> r as int == c as int + 32
    ensures !IsUpper(r)
    ensures IsLetter(r) == IsLetter(c)
    ensures !IsLetter(c) ==> r == c
  {
    if IsUpper(c) then (c as int + 32) as char else c
  }

  function UpperChar(c: char): (r: char)
    ensures IsLower(c) ==> r as int == c as int - 32
    ensures !IsLower(r)
    ensures IsLetter(r) == IsLetter(c)
    ensures !IsLetter(c) ==> r == c
  {
    if IsLower(c) then (c as int - 32) as char else c
  }

  /** `str.lower()`. */
  function Lower(s: string): (r: string)
    ensures |r| == |s|
    ensures forall i :: 0 <= i < |s| ==> r[i] == LowerChar(s[i])
  {
    seq(|s|, i requires 0 <= i < |s| => LowerChar(s[i]))
  }

  /** `str.upper()`. */
  function Upper(s: string): (r: string)
    ensures |r| == |s|
    ensures forall i :: 0 <= i < |s| ==> r[i] == UpperChar(s[i])
  {
    seq(|s|, i requires 0 <= i < |s| => UpperChar(s[i]))
  }

  /** How `str.title()` treats one character: a letter that follows a letter
      becomes lower case, any other letter upper case, and a character that
      is not a letter is kept. */
  function CaseAt(c: char, afterLetter: bool): (r: char)
    ensures !IsLetter(c) ==> r == c
  {
    if !IsLetter(c) then c else if afterLetter then LowerChar(c) else UpperChar(c)
  }

  /** The scan behind `str.title()`: `afterLetter` tells whether the character
      before `s` was a letter. */
  function TitleFrom(s: string, afterLetter: bool): (r: string)
    ensures |r| == |s|
    ensures forall i {:trigger r[i]} :: 0 <= i < |s| ==>
      r[i] == CaseAt(s[i], if i == 0 then afterLetter else IsLetter(s[i - 1]))
  {
    if s == [] then [] else [CaseAt(s[0], afterLetter)] + TitleFrom(s[1..], IsLetter(s[0]))
  }

  /** `str.title()`: every letter that starts a run of letters is upper case,
      every other letter lower case. */
  function TitleCase(s: string): (r: string)
    ensures |r| == |s|
    ensures forall i {:trigger r[i]} :: 0 <= i < |s| && IsLetter(s[i]) && (i == 0 || !IsLetter(s[i - 1])) ==>
      r[i] == UpperChar(s[i])
    ensures forall i {:trigger r[i]} :: 0 <= i < |s| && IsLetter(s[i]) && i > 0 && IsLetter(s[i - 1]) ==>
      r[i] == LowerChar(s[i])
    ensures forall i :: 0 <= i < |s| && !IsLetter(s[i]) ==> r[i] == s[i]
  {
    var r := TitleFrom(s, false);
    assert forall i | 0 <= i < |s| && !IsLetter(s[i]) :: r[i] == s[i] by {
      forall i | 0 <= i < |s| && !IsLetter(s[i]) ensures r[i] == s[i] {
        assert r[i] == CaseAt(s[i], if i == 0 then false else IsLetter(s[i - 1]));
      }
    }
    r
  }

  /** `str.replace(a, b)` for one-character `a` and `b`. */
  function ReplaceChar(s: string, a: char, b: char): (r: string)
    ensures |r| == |s|
    ensures forall i :: 0 <= i < |s| ==> r[i] == if s[i] == a then b else s[i]
  {
    seq(|s|, i requires 0 <= i < |s| => if s[i] == a then b else s[i])
  }

  // ---------------------------------------------------------------------
  // First element satisfying a test

  /** The index of the first element of `xs` for which `p` holds, or `|xs|`
      when there is none. */
  function FirstIndex<T>(xs: seq<T>, p: T -> bool): (k: nat)
    ensures k <= |xs|
    ensures forall j :: 0 <= j < k ==> !p(xs[j])
    ensures k < |xs| ==> p(xs[k])
  {
    if xs == [] then 0 else if p(xs[0]) then 0 else 1 + FirstIndex(xs[1..], p)
  }

  /** The first index of `s` that holds a character of `seps`, or `|s|`. */
  function FirstSep(s: string, seps: set<char>): (k: nat)
    ensures k <= |s|
    ensures NoneIn(s[..k], seps)
    ensures k < |s| ==> s[k] in seps
  {
    FirstIndex(s, c => c in seps)
  }

  // ---------------------------------------------------------------------
  // Split and join

  /** Python's `s.split(sep, limit)` generalised to a set of one-character
      separators (so that `re.split('[-_]', s)` is `SplitOn(s, {'-', '_'}, -1)`).
      A negative `limit` splits at every separator. */
  function SplitOn(s: string, seps: set<char>, limit: int): (r: seq<string>)
    ensures |r| >= 1
    ensures forall i :: 0 <= i < |r| - 1 ==> NoneIn(r[i], seps)
    ensures limit < 0 || |r| <= limit ==> NoneIn(r[|r| - 1], seps)
    ensures limit >= 0 ==> |r| <= limit + 1
    ensures |r| == 1 <==> limit == 0 || NoneIn(s, seps)
    ensures |r| == 1 ==> r[0] == s
    decreases |s|
  {
    var k := FirstSep(s, seps);
    if limit == 0 || k == |s| then [s]
    else [s[..k]] + SplitOn(s[k + 1..], seps, if limit > 0 then limit - 1 else limit)
  }

  /** With any limit other than zero, the first piece is the text before
      the first separator. */
  lemma SplitFirst(s: string, seps: set<char>, limit: int)
    requires limit != 0
    ensures SplitOn(s, seps, limit)[0] == s[..FirstSep(s, seps)]
  {
  }

  /** A split without limit leaves no separator in any piece. */
  lemma SplitPieces(s: string, seps: set<char>)
    ensures forall i :: 0 <= i < |SplitOn(s, seps, -1)| ==> NoneIn(SplitOn(s, seps, -1)[i], seps)
  {
    var r := SplitOn(s, seps, -1);
    forall i | 0 <= i < |r| ensures NoneIn(r[i], seps) {
      if i == |r| - 1 {
        assert NoneIn(r[|r| - 1], seps);
      }
    }
  }

  /** `sep.join(xs)`. */
  function Join(xs: seq<string>, sep: string): string
  {
    if |xs| == 0 then "" else if |xs| == 1 then xs[0] else xs[0] + sep + Join(xs[1..], sep)
  }

  /** Joining a concatenation puts one separator between the two joins. */
  lemma {:induction false} JoinAppend(xs: seq<string>, ys: seq<string>, sep: string)
    requires |xs| >= 1 && |ys| >= 1
    ensures Join(xs + ys, sep) == Join(xs, sep) + sep + Join(ys, sep)
  {
    if |xs| == 1 {
      assert (xs + ys)[1..] == ys;
    } else {
      assert (xs + ys)[1..] == xs[1..] + ys;
      JoinAppend(xs[1..], ys, sep);
    }
  }

  /** Concatenation regrouped; stated once so that proofs need not rediscover it. */
  lemma Assoc(a: string, b: string, c: string)
    ensures a + (b + c) == a + b + c
  {
  }

  /** Joining cut at index `k`: the two joins with one separator between. */
  lemma JoinAt(xs: seq<string>, k: nat, sep: string)
    requires 1 <= k < |xs|
    ensures Join(xs, sep) == Join(xs[..k], sep) + sep + Join(xs[k..], sep)
  {
    assert xs == xs[..k] + xs[k..];
    JoinAppend(xs[..k], xs[k..], sep);
  }

  /** Joining from index `k` starts with element `k` and a separator. */
  lemma JoinFrom(xs: seq<string>, k: nat, sep: string)
    requires k + 1 < |xs|
    ensures Join(xs[k..], sep) == xs[k] + sep + Join(xs[k + 1..], sep)
  {
    assert xs[k..][1..] == xs[k + 1..];
  }

  /** Joining a list of at least two strings starts with its head and a separator. */
  lemma JoinCons(x: string, rest: seq<string>, sep: string)
    requires |rest| >= 1
    ensures Join([x] + rest, sep) == x + sep + Join(rest, sep)
  {
    assert ([x] + rest)[1..] == rest;
  }

  /** One step of `SplitOn` past its first separator. */
  lemma SplitOnStep(s: string, seps: set<char>, limit: int)
    requires limit != 0 && FirstSep(s, seps) < |s|
    ensures var k := FirstSep(s, seps);
      SplitOn(s, seps, limit) == [s[..k]] + SplitOn(s[k + 1..], seps, if limit > 0 then limit - 1 else limit)
  {
  }

  lemma Around(s: string, k: nat)
    requires k < |s|
    ensures s == s[..k] + [s[k]] + s[k + 1..]
  {
  }

  /** Splitting on one character and joining with it gives back the string. */
  lemma {:induction false} JoinSplit(s: string, c: char, limit: int)
    ensures Join(SplitOn(s, {c}, limit), [c]) == s
    decreases |s|
  {
    var k := FirstSep(s, {c});
    if limit == 0 || k == |s| {
    } else {
      var limit' := if limit > 0 then limit - 1 else limit;
      SplitOnStep(s, {c}, limit);
      JoinSplit(s[k + 1..], c, limit');
      JoinCons(s[..k], SplitOn(s[k + 1..], {c}, limit'), [c]);
      Around(s, k);
    }
  }

  /** `ReplaceChar` cut around index `k`. */
  lemma ReplaceCharAround(s: string, k: nat, a: char, b: char)
    requires k < |s|
    ensures ReplaceChar(s, a, b) ==
      ReplaceChar(s[..k], a, b) + [if s[k] == a then b else s[k]] + ReplaceChar(s[k + 1..], a, b)
  {
    var r := ReplaceChar(s[..k], a, b) + [if s[k] == a then b else s[k]] + ReplaceChar(s[k + 1..], a, b);
    forall i | 0 <= i < |s| ensures r[i] == ReplaceChar(s, a, b)[i] {
      if i < k { assert r[i] == ReplaceChar(s[..k], a, b)[i]; }
      else if i > k { assert r[i] == ReplaceChar(s[k + 1..], a, b)[i - k - 1]; }
    }
  }

  /** Splitting on two characters `a` and `b` and joining with `a` gives the
      string with every `b` replaced by `a`. */
  lemma {:induction false} JoinSplitTwo(s: string, a: char, b: char)
    ensures Join(SplitOn(s, {a, b}, -1), [a]) == ReplaceChar(s, b, a)
    decreases |s|
  {
    var k := FirstSep(s, {a, b});
    if k == |s| {
      assert s[..k] == s;
      assert ReplaceChar(s, b, a) == s;
    } else {
      var rest := SplitOn(s[k + 1..], {a, b}, -1);
      var tail := ReplaceChar(s[k + 1..], b, a);
      assert Join(SplitOn(s, {a, b}, -1), [a]) == s[..k] + [a] + tail by {
        SplitOnStep(s, {a, b}, -1);
        JoinSplitTwo(s[k + 1..], a, b);
        JoinCons(s[..k], rest, [a]);
      }
      assert ReplaceChar(s, b, a) == s[..k] + [a] + tail by {
        ReplaceCharAround(s, k, b, a);
        assert ReplaceChar(s[..k], b, a) == s[..k];
      }
    }
  }

  // ---------------------------------------------------------------------
  // Counting one character

  function CountChar(s: string, c: char): nat
  {
    if s == [] then 0 else (if s[0] == c then 1 else 0) + CountChar(s[1..], c)
  }

  lemma {:induction false} CountCharAppend(a: string, b: string, c: char)
    ensures CountChar(a + b, c) == CountChar(a, c) + CountChar(b, c)
  {
    if a == [] {
      assert a + b == b;
    } else {
      assert (a + b)[1..] == a[1..] + b;
      CountCharAppend(a[1..], b, c);
    }
  }

  lemma {:induction false} CountCharNone(s: string, c: char)
    ensures CountChar(s, c) == 0 <==> NoneIn(s, {c})
  {
    if s != [] {
      CountCharNone(s[1..], c);
      assert NoneIn(s, {c}) <==> s[0] != c && NoneIn(s[1..], {c}) by {
        if NoneIn(s, {c}) {
          forall i | 0 <= i < |s[1..]| ensures s[1..][i] !in {c} { assert s[1..][i] == s[i + 1]; }
        }
        if s[0] != c && NoneIn(s[1..], {c}) {
          forall i | 0 <= i < |s| ensures s[i] !in {c} { if i > 0 { assert s[i] == s[1..][i - 1]; } }
        }
      }
    }
  }

  /** Joining separator-free pieces with one character puts exactly one copy
      of it between consecutive pieces. */
  lemma {:induction false} CountJoin(xs: seq<string>, c: char)
    requires |xs| >= 1
    requires forall i :: 0 <= i < |xs| ==> NoneIn(xs[i], {c})
    ensures CountChar(Join(xs, [c]), c) == |xs| - 1
  {
    CountCharNone(xs[0], c);
    if |xs| > 1 {
      CountJoin(xs[1..], c);
      CountCharAppend(xs[0], [c], c);
      CountCharAppend(xs[0] + [c], Join(xs[1..], [c]), c);
      assert CountChar([c], c) == 1 by { assert [c][1..] == []; }
    }
  }

  /** A full split on `c` yields one more piece than `c` occurs in `s`. */
  lemma SplitLength(s: string, c: char)
    ensures |SplitOn(s, {c}, -1)| == CountChar(s, c) + 1
  {
    JoinSplit(s, c, -1);
    CountJoin(SplitOn(s, {c}, -1), c);
  }

  // ---------------------------------------------------------------------
  // Substrings

  /** `pat` occurs in `s` at index `i`. */
  predicate OccursAt(s: string, pat: string, i: nat)
  {
    i + |pat| <= |s| && s[i..i + |pat|] == pat
  }

  /** The first index at or after `from` where `pat` occurs in `s`. */
  function FindFrom(s: string, pat: string, from: nat): (r: Option<nat>)
    ensures r.Some? ==> from <= r.value && OccursAt(s, pat, r.value)
    ensures r.Some? ==> forall j :: from <= j < r.value ==> !OccursAt(s, pat, j)
    ensures r.None? ==> forall j: nat :: from <= j ==> !OccursAt(s, pat, j)
    decreases |s| - from
  {
    if from + |pat| > |s| then None
    else if OccursAt(s, pat, from) then Some(from)
    else FindFrom(s, pat, from + 1)
  }

  /** `s.find(pat)`, with `None` for Python's `-1`. */
  function Find(s: string, pat: string): (r: Option<nat>)
    ensures r.Some? ==> OccursAt(s, pat, r.value)
    ensures r.Some? ==> forall j :: 0 <= j < r.value ==> !OccursAt(s, pat, j)
    ensures r.None? ==> forall j: nat :: !OccursAt(s, pat, j)
  {
    FindFrom(s, pat, 0)
  }

  /** `pat in s` for strings. */
  predicate Contains(s: string, pat: string)
  {
    Find(s, pat).Some?
  }

  /** `s.replace(pat, '', 1)`: the first occurrence of `pat` is removed. */
  function RemoveFirst(s: string, pat: string): (r: string)
    ensures Find(s, pat).None? ==> r == s
    ensures Find(s, pat).Some? ==>
      var i := Find(s, pat).value;
      |r| == |s| - |pat| && r[..i] == s[..i] && r[i..] == s[i + |pat|..]
  {
    match Find(s, pat)
    case None => s
    case Some(i) => s[..i] + s[i + |pat|..]
  }

  /** Removing the first occurrence of `pat` and putting it back where it was
      gives the original string. */
  lemma RemoveFirstRestores(s: string, pat: string)
    requires Find(s, pat).Some?
    ensures var i := Find(s, pat).value; var r := RemoveFirst(s, pat);
      s == r[..i] + pat + r[i..]
  {
    var i := Find(s, pat).value;
    assert s[i..i + |pat|] == pat;
    assert s == s[..i] + s[i..i + |pat|] + s[i + |pat|..];
  }

  /** The index of the last occurrence of `c` in `s` (`s.rfind(c)`). */
  function LastIndex(s: string, c: char): (r: Option<nat>)
    ensures r.Some? ==> r.value < |s| && s[r.value] == c && NoneIn(s[r.value + 1..], {c})
    ensures r.None? ==> NoneIn(s, {c})
  {
    if s == [] then None
    else if s[|s| - 1] == c then Some(|s| - 1)
    else
      var r := LastIndex(s[..|s| - 1], c);
      assert r.Some? ==> s[r.value + 1..] == s[..|s| - 1][r.value + 1..] + [s[|s| - 1]];
      assert s == s[..|s| - 1] + [s[|s| - 1]];
      r
  }
}
