/**
 Python's `str.split(sep)` and `str.replace(old, new)` for a non-empty
 separator, as the template engine uses them. Both scan the string left to
 right and take the leftmost match first; matches never overlap.
 */
module Strings {

  datatype Option<T> = None | Some(value: T)

  /** `tok` occurs in `s` at position `i`. */
  predicate OccursAt(s: string, tok: string, i: nat)
  {
    i + |tok| <= |s| && s[i..i + |tok|] == tok
  }

  /** A slice of a suffix is a slice of the whole string. */
  lemma SliceOfDrop(s: string, a: nat, b: nat, c: nat)
    requires a + c <= |s| && b <= c
    ensures s[a..][b..c] == s[a + b..a + c]
  {
    assert forall k :: 0 <= k < c - b ==> s[a..][b..c][k] == s[a + b + k];
  }

  /** A slice of a prefix is a slice of the whole string. */
  lemma SliceOfTake(s: string, i: nat, b: nat, c: nat)
    requires i <= |s| && b <= c <= i
    ensures s[..i][b..c] == s[b..c]
  {
    assert forall k :: 0 <= k < c - b ==> s[..i][b..c][k] == s[b + k];
  }

  /** Matches in `s[1..]` are the matches in `s` one position further on. */
  lemma OccursShift(s: string, tok: string, j: nat)
    requires |s| > 0
    ensures OccursAt(s, tok, j + 1) <==> OccursAt(s[1..], tok, j)
  {
    if j + 1 + |tok| <= |s| {
      SliceOfDrop(s, 1, j, j + |tok|);
    }
  }

  /** If no match starts at 0 nor in the first `n` positions of `s[1..]`,
      none starts in the first `n + 1` positions of `s`. */
  lemma NoMatchShift(s: string, tok: string, n: nat)
    requires |s| > 0 && !OccursAt(s, tok, 0)
    requires forall j: nat :: j < n ==> !OccursAt(s[1..], tok, j)
    ensures forall j: nat :: j < n + 1 ==> !OccursAt(s, tok, j)
  {
    forall j: nat | 0 < j < n + 1
      ensures !OccursAt(s, tok, j)
    {
      OccursShift(s, tok, j - 1);
    }
  }

  /** The position of the leftmost occurrence of `tok` in `s` (Python's `str.find`). */
  function Find(s: string, tok: string): (r: Option<nat>)
    ensures r.Some? ==> OccursAt(s, tok, r.value)
    ensures r.Some? ==> forall j: nat :: j < r.value ==> !OccursAt(s, tok, j)
    ensures r.None? ==> forall j: nat :: !OccursAt(s, tok, j)
    decreases |s|
  {
    if |s| < |tok| then None
    else if s[..|tok|] == tok then Some(0)
    else
      match Find(s[1..], tok)
      case None =>
        NoMatchShift(s, tok, |s|);
        None
      case Some(i) =>
        NoMatchShift(s, tok, i);
        OccursShift(s, tok, i);
        Some(i + 1)
  }

  /** The number of non-overlapping occurrences of `tok` in `s`, counted by a
      greedy left-to-right scan that jumps over each match it takes. */
  function CountOcc(s: string, tok: string): (n: nat)
    requires |tok| > 0
    ensures n <= |s|
    decreases |s|
  {
    if |s| < |tok| then 0
    else if s[..|tok|] == tok then
      1 + CountOcc(s[|tok|..], tok)
    else CountOcc(s[1..], tok)
  }

  /** Python's `s.split(sep)`: the pieces between successive leftmost matches. */
  function Split(s: string, sep: string): (pieces: seq<string>)
    requires |sep| > 0
    ensures |pieces| >= 1
    ensures forall k :: 0 <= k < |pieces| ==> Find(pieces[k], sep).None?
    decreases |s|
  {
    match Find(s, sep)
    case None => [s]
    case Some(i) =>
      NoMatchBefore(s, sep, i);
      [s[..i]] + Split(s[i + |sep|..], sep)
  }

  /** Python's `sep.join(pieces)`: it starts with the first piece. */
  function Join(pieces: seq<string>, sep: string): (r: string)
    requires |pieces| >= 1
    ensures pieces[0] <= r
    decreases |pieces|
  {
    if |pieces| == 1 then pieces[0] else pieces[0] + sep + Join(pieces[1..], sep)
  }

  /** Python's `s.replace(tok, v)`: every leftmost, non-overlapping match of
      `tok` is replaced by `v`; the text between matches is kept. Replacing
      the token by itself changes nothing. */
  function ReplaceAll(s: string, tok: string, v: string): (r: string)
    requires |tok| > 0
    ensures v == tok ==> r == s
    decreases |s|
  {
    match Find(s, tok)
    case None => s
    case Some(i) =>
      ConcatAround(s, i, i + |tok|);
      s[..i] + v + ReplaceAll(s[i + |tok|..], tok, v)
  }

  /** The prefix before the leftmost match contains no match of its own. */
  lemma NoMatchBefore(s: string, tok: string, i: nat)
    requires |tok| > 0 && i <= |s|
    requires forall j: nat :: j < i ==> !OccursAt(s, tok, j)
    ensures Find(s[..i], tok).None?
  {
    forall j: nat | OccursAt(s[..i], tok, j)
      ensures false
    {
      SliceOfTake(s, i, j, j + |tok|);
      assert OccursAt(s, tok, j);
    }
  }

  /** Skipping a stretch in which no match starts does not change the count. */
  lemma {:induction false} CountSkip(s: string, tok: string, i: nat)
    requires |tok| > 0 && i <= |s|
    requires forall j: nat :: j < i ==> !OccursAt(s, tok, j)
    ensures CountOcc(s, tok) == CountOcc(s[i..], tok)
    decreases i
  {
    if i == 0 {
      assert s[0..] == s;
    } else if |s| < |tok| {
      assert |s[i..]| < |tok|;
    } else {
      assert !OccursAt(s, tok, 0);
      assert s[..|tok|] != tok;
      forall j: nat | j < i - 1
        ensures !OccursAt(s[1..], tok, j)
      {
        OccursShift(s, tok, j);
      }
      CountSkip(s[1..], tok, i - 1);
      assert s[1..][i - 1..] == s[i..];
    }
  }

  /** The matches counted do not overlap, so together they fit in `s`. */
  lemma {:induction false} CountBound(s: string, tok: string)
    requires |tok| > 0
    ensures CountOcc(s, tok) * |tok| <= |s|
    decreases |s|
  {
    if |s| < |tok| {
    } else if s[..|tok|] == tok {
      CountBound(s[|tok|..], tok);
      MulStep(CountOcc(s[|tok|..], tok), |tok|);
    } else {
      CountBound(s[1..], tok);
    }
  }

  /** At the leftmost match the count steps by one past the match. */
  lemma CountAtFirst(s: string, tok: string, i: nat)
    requires |tok| > 0
    requires Find(s, tok) == Some(i)
    ensures CountOcc(s, tok) == 1 + CountOcc(s[i + |tok|..], tok)
  {
    CountSkip(s, tok, i);
    assert s[i..][..|tok|] == tok;
    assert s[i..][|tok|..] == s[i + |tok|..];
  }

  /** No match at all exactly when the count is zero. */
  lemma {:induction false} CountZeroIffNoMatch(s: string, tok: string)
    requires |tok| > 0
    ensures CountOcc(s, tok) == 0 <==> Find(s, tok).None?
  {
    match Find(s, tok)
    case None =>
      CountSkip(s, tok, |s|);
      assert |s[|s|..]| < |tok|;
    case Some(i) =>
      CountAtFirst(s, tok, i);
  }

  /** Counting as `len(s.split(tok)) - 1` gives the number of
      non-overlapping leftmost-first occurrences. */
  lemma {:induction false} CountIsSplitMinusOne(s: string, tok: string)
    requires |tok| > 0
    ensures CountOcc(s, tok) == |Split(s, tok)| - 1
    decreases |s|
  {
    match Find(s, tok)
    case None =>
      CountZeroIffNoMatch(s, tok);
      assert Split(s, tok) == [s];
    case Some(i) =>
      var rest := s[i + |tok|..];
      assert |Split(s, tok)| == 1 + |Split(rest, tok)|;
      CountAtFirst(s, tok, i);
      CountIsSplitMinusOne(rest, tok);
  }

  /** Each cut of a split is at the leftmost match: the first piece ends
      where `Find` puts the first match, and a single piece means no match. */
  lemma SplitAtLeftmost(s: string, sep: string)
    requires |sep| > 0
    ensures |Split(s, sep)| == 1 <==> Find(s, sep).None?
    ensures |Split(s, sep)| > 1 ==> Find(s, sep) == Some(|Split(s, sep)[0]|)
  {
  }

  /** Joining the pieces of a split with the separator gives back the string. */
  lemma {:induction false} JoinSplit(s: string, sep: string)
    requires |sep| > 0
    ensures Join(Split(s, sep), sep) == s
    decreases |s|
  {
    match Find(s, sep)
    case None =>
    case Some(i) =>
      var rest := s[i + |sep|..];
      var pieces := Split(s, sep);
      assert pieces == [s[..i]] + Split(rest, sep);
      assert pieces[1..] == Split(rest, sep);
      JoinSplit(rest, sep);
      assert Join(pieces, sep) == s[..i] + sep + rest;
      assert s == s[..i] + s[i..i + |sep|] + rest;
  }

  /** Replacing is, equivalently, splitting at the token and joining the
      pieces with the value. */
  lemma {:induction false} ReplaceIsJoinOfSplit(s: string, tok: string, v: string)
    requires |tok| > 0
    ensures ReplaceAll(s, tok, v) == Join(Split(s, tok), v)
    decreases |s|
  {
    match Find(s, tok)
    case None =>
    case Some(i) =>
      var rest := s[i + |tok|..];
      var pieces := Split(s, tok);
      assert pieces == [s[..i]] + Split(rest, tok);
      assert pieces[1..] == Split(rest, tok);
      ReplaceIsJoinOfSplit(rest, tok, v);
      assert ReplaceAll(s, tok, v) == s[..i] + v + ReplaceAll(rest, tok, v);
      assert Join(pieces, v) == s[..i] + v + Join(pieces[1..], v);
  }

  /** A string without the token is left exactly as it was. */
  lemma NoMatchUnchanged(s: string, tok: string, v: string)
    requires |tok| > 0
    requires CountOcc(s, tok) == 0
    ensures ReplaceAll(s, tok, v) == s
  {
    CountZeroIffNoMatch(s, tok);
  }

  /** Distributes one step of a product, which the solver does not do unaided. */
  lemma MulStep(c: int, d: int)
    ensures (1 + c) * d == d + c * d
  {
  }

  /** Each replacement changes the length by `|v| - |tok|`. */
  lemma {:induction false} ReplaceLength(s: string, tok: string, v: string)
    requires |tok| > 0
    ensures |ReplaceAll(s, tok, v)| == |s| + CountOcc(s, tok) * (|v| - |tok|)
    decreases |s|
  {
    match Find(s, tok)
    case None =>
      CountZeroIffNoMatch(s, tok);
    case Some(i) =>
      var rest := s[i + |tok|..];
      CountAtFirst(s, tok, i);
      ReplaceLength(rest, tok, v);
      MulStep(CountOcc(rest, tok), |v| - |tok|);
  }

  /** If `s` is `prefix + tok + suffix` and no match starts inside `prefix`,
      the first replacement happens right there and the scan resumes on
      `suffix`. */
  lemma ReplaceAtFirstMatch(prefix: string, tok: string, suffix: string, v: string)
    requires |tok| > 0
    requires forall j: nat :: j < |prefix| ==> !OccursAt(prefix + tok + suffix, tok, j)
    ensures ReplaceAll(prefix + tok + suffix, tok, v) == prefix + v + ReplaceAll(suffix, tok, v)
    ensures CountOcc(prefix + tok + suffix, tok) == 1 + CountOcc(suffix, tok)
  {
    var s := prefix + tok + suffix;
    assert OccursAt(s, tok, |prefix|) by {
      assert s[|prefix|..|prefix| + |tok|] == tok;
    }
    var i := Find(s, tok).value;
    assert i == |prefix|;
    assert s[..i] == prefix;
    assert s[i + |tok|..] == suffix;
    CountAtFirst(s, tok, i);
  }

  /** With exactly one match, the result is the text before it, the value,
      and the text after it. */
  lemma SingleMatch(prefix: string, tok: string, suffix: string, v: string)
    requires |tok| > 0
    requires forall j: nat :: j < |prefix| ==> !OccursAt(prefix + tok + suffix, tok, j)
    requires CountOcc(prefix + tok + suffix, tok) == 1
    ensures ReplaceAll(prefix + tok + suffix, tok, v) == prefix + v + suffix
  {
    ReplaceAtFirstMatch(prefix, tok, suffix, v);
    NoMatchUnchanged(suffix, tok, v);
  }

  /** A string with exactly one match can be cut around it as `SingleMatch` needs. */
  lemma SingleMatchSplits(s: string, tok: string)
    requires |tok| > 0
    requires CountOcc(s, tok) == 1
    ensures Find(s, tok).Some?
    ensures var i := Find(s, tok).value;
      && s == s[..i] + tok + s[i + |tok|..]
      && (forall j: nat :: j < i ==> !OccursAt(s, tok, j))
      && CountOcc(s[i + |tok|..], tok) == 0
  {
    CountZeroIffNoMatch(s, tok);
    var i := Find(s, tok).value;
    assert OccursAt(s, tok, i);
    CountAtFirst(s, tok, i);
    ConcatAround(s, i, i + |tok|);
  }

  /** A string is the concatenation of the three slices around `[a, b)`. */
  lemma ConcatAround(s: string, a: nat, b: nat)
    requires a <= b <= |s|
    ensures s == s[..a] + s[a..b] + s[b..]
  {
    assert s[..a] + s[a..b] == s[..b];
    assert s[..b] + s[b..] == s;
  }
}
