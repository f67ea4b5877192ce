/** The markdown-like renderer of a chat message (`renderContent` in
    components/ChatMessage.tsx): the content is split on triple-backtick
    fences, fenced parts become code blocks, and every other part is split
    again on `**...**` spans. JavaScript's `String.prototype.split` with a
    capturing regular expression and the two regular expressions are
    written out explicitly. */
module Render {
  import opened Wrappers
  import opened Strings

  const Fence: string := "```"
  const Stars: string := "**"
  const DefaultLanguage: string := "code"

  datatype Inline = Plain(text: string) | Bold(text: string)
  datatype Segment = Code(language: string, body: string) | Text(inlines: seq<Inline>)

  /** The two separators: `/(```[\s\S]*?```)/` and `/(\*\*.*?\*\*)/`. */
  datatype Pattern = FencePattern | BoldPattern

  function Concat(parts: seq<string>): string {
    if |parts| == 0 then "" else parts[0] + Concat(parts[1..])
  }

  // ---------------------------------------------------------------------
  // What each regular expression matches, stated declaratively
  // ---------------------------------------------------------------------

  /** A whole match of the fence pattern: an opening fence and the first
      fence after it (the lazy `[\s\S]*?` takes the shortest span). */
  predicate IsFenceSpan(t: string) {
    |t| >= 6 && StartsWith(t, Fence) && EndsWith(t, Fence) && AbsentBetween(t, Fence, 3, |t| - 3)
  }

  /** A whole match of the bold pattern: `**`, the first `**` after it,
      and no line terminator in between (`.` does not match one). */
  predicate IsBoldSpan(t: string) {
    && |t| >= 4 && StartsWith(t, Stars) && EndsWith(t, Stars)
    && AbsentBetween(t, Stars, 2, |t| - 2)
    && forall k :: 2 <= k < |t| - 2 ==> !IsLineTerminator(t[k])
  }

  predicate IsSpan(p: Pattern, t: string) {
    match p
    case FencePattern => IsFenceSpan(t)
    case BoldPattern => IsBoldSpan(t)
  }

  // ---------------------------------------------------------------------
  // Matching at one position
  // ---------------------------------------------------------------------

  /** The lazy `.*?\*\*` tail of the bold pattern scanning from `i`: the
      first `**` at or after `i`, unless a line terminator comes first. */
  function BoldClose(s: string, i: nat): (r: Option<nat>)
    ensures r.Some? ==> && i <= r.value && OccursAt(s, r.value, Stars)
                        && AbsentBetween(s, Stars, i, r.value)
                        && forall k :: i <= k < r.value ==> !IsLineTerminator(s[k])
    ensures r.None? ==> forall j :: i <= j && OccursAt(s, j, Stars) ==>
                          exists k :: i <= k < j && IsLineTerminator(s[k])
    decreases |s| - i
  {
    if i + 2 > |s| then None
    else if s[i..i + 2] == Stars then Some(i)
    else if IsLineTerminator(s[i]) then None
    else BoldClose(s, i + 1)
  }

  /** No match of `p` starts at `q`. */
  ghost predicate NoSpanAt(p: Pattern, s: string, q: nat)
    requires q <= |s|
  {
    forall e {:trigger IsSpan(p, s[q..e])} :: q < e <= |s| ==> !IsSpan(p, s[q..e])
  }

  /** The end of the match of `p` that starts at `q`, if there is one. */
  function MatchEnd(p: Pattern, s: string, q: nat): (r: Option<nat>)
    requires q <= |s|
    ensures r.Some? ==> q < r.value <= |s| && IsSpan(p, s[q..r.value])
    ensures r.None? ==> NoSpanAt(p, s, q)
  {
    match p
    case FencePattern =>
      if !OccursAt(s, q, Fence) then
        NoSpanWithoutOpener(FencePattern, s, q);
        None
      else
        (match IndexOf(s, Fence, q + 3)
        case None =>
          NoSpanWithoutFenceCloser(s, q);
          None
        case Some(j) =>
          FenceSpanFound(s, q, j);
          Some(j + 3))
    case BoldPattern =>
      if !OccursAt(s, q, Stars) then
        NoSpanWithoutOpener(BoldPattern, s, q);
        None
      else
        (match BoldClose(s, q + 2)
        case None =>
          NoSpanWithoutBoldCloser(s, q);
          None
        case Some(j) =>
          BoldSpanFound(s, q, j);
          Some(j + 2))
  }

  /** The marker a match of `p` opens and closes with. */
  function Marker(p: Pattern): string {
    match p
    case FencePattern => Fence
    case BoldPattern => Stars
  }

  lemma NoSpanWithoutOpener(p: Pattern, s: string, q: nat)
    requires q <= |s| && !OccursAt(s, q, Marker(p))
    ensures NoSpanAt(p, s, q)
  {
    forall e | q < e <= |s| && IsSpan(p, s[q..e]) ensures false {
      OccursAtInfix(s, q, e, 0, Marker(p));
    }
  }

  lemma NoSpanWithoutFenceCloser(s: string, q: nat)
    requires q <= |s| && IndexOf(s, Fence, q + 3).None?
    ensures NoSpanAt(FencePattern, s, q)
  {
    forall e | q < e <= |s| && IsSpan(FencePattern, s[q..e]) ensures false {
      OccursAtInfix(s, q, e, e - q - 3, Fence);
    }
  }

  lemma NoSpanWithoutBoldCloser(s: string, q: nat)
    requires q <= |s| && BoldClose(s, q + 2).None?
    ensures NoSpanAt(BoldPattern, s, q)
  {
    forall e | q < e <= |s| && IsSpan(BoldPattern, s[q..e]) ensures false {
      BoldSpanBlocked(s, q, e);
    }
  }

  lemma FenceSpanFound(s: string, q: nat, j: nat)
    requires OccursAt(s, q, Fence) && q + 3 <= j
    requires OccursAt(s, j, Fence) && AbsentBetween(s, Fence, q + 3, j)
    ensures IsFenceSpan(s[q..j + 3])
  {
    var t := s[q..j + 3];
    OccursAtInfix(s, q, j + 3, 0, Fence);
    assert t[|t| - 3..] == s[j..j + 3];
    forall k | 3 <= k < |t| - 3 ensures !OccursAt(t, k, Fence) {
      OccursAtInfix(s, q, j + 3, k, Fence);
    }
  }

  lemma BoldSpanFound(s: string, q: nat, j: nat)
    requires OccursAt(s, q, Stars) && q + 2 <= j
    requires OccursAt(s, j, Stars) && AbsentBetween(s, Stars, q + 2, j)
    requires forall k :: q + 2 <= k < j ==> !IsLineTerminator(s[k])
    ensures IsBoldSpan(s[q..j + 2])
  {
    var t := s[q..j + 2];
    OccursAtInfix(s, q, j + 2, 0, Stars);
    assert t[|t| - 2..] == s[j..j + 2];
    forall k | 2 <= k < |t| - 2 ensures !OccursAt(t, k, Stars) {
      OccursAtInfix(s, q, j + 2, k, Stars);
    }
    forall k | 2 <= k < |t| - 2 ensures !IsLineTerminator(t[k]) {
      assert t[k] == s[q + k];
    }
  }

  lemma BoldSpanBlocked(s: string, q: nat, e: nat)
    requires q < e <= |s| && IsBoldSpan(s[q..e])
    ensures BoldClose(s, q + 2).Some?
  {
    var t := s[q..e];
    OccursAtInfix(s, q, e, |t| - 2, Stars);
    assert forall k :: q + 2 <= k < e - 2 ==> t[k - q] == s[k];
  }

  /** No match starts at a character other than the first of the marker. */
  lemma NoLeadNoMatch(p: Pattern, s: string, q: nat)
    requires q < |s| && s[q] != Marker(p)[0]
    ensures MatchEnd(p, s, q).None?
  {
    if q + 3 <= |s| {
      assert s[q..q + 3][0] == s[q];
    }
    if q + 2 <= |s| {
      assert s[q..q + 2][0] == s[q];
    }
  }

  /** The bold tail scan passes over an ordinary character. */
  lemma BoldCloseStep(s: string, i: nat)
    requires i + 2 <= |s| && s[i] != '*' && !IsLineTerminator(s[i])
    ensures BoldClose(s, i) == BoldClose(s, i + 1)
  {
    assert s[i..i + 2][0] == s[i];
  }

  lemma BoldCloseHere(s: string, i: nat)
    requires OccursAt(s, i, Stars)
    ensures BoldClose(s, i) == Some(i)
  {
  }

  /** A bold match runs from its opening `**` to the end of the closing one. */
  lemma BoldMatch(s: string, q: nat, j: nat)
    requires OccursAt(s, q, Stars) && BoldClose(s, q + 2) == Some(j)
    ensures MatchEnd(BoldPattern, s, q) == Some(j + 2)
  {
  }

  /** A fence match runs from its opening fence to the end of the next one. */
  lemma FenceMatch(s: string, q: nat, j: nat)
    requires OccursAt(s, q, Fence) && IndexOf(s, Fence, q + 3) == Some(j)
    ensures MatchEnd(FencePattern, s, q) == Some(j + 3)
  {
  }

  // ---------------------------------------------------------------------
  // String.prototype.split with a capturing separator
  // ---------------------------------------------------------------------

  /** The split loop of ECMA-262 (`@@split`): `last` is where the current
      unmatched part began, `q` the next position to try a match at. A
      match ends the current part and is kept as a part of its own. */
  function SplitFrom(p: Pattern, s: string, last: nat, q: nat): (r: seq<string>)
    requires last <= q <= |s|
    ensures |r| % 2 == 1
    ensures forall k {:trigger IsSpan(p, r[k])} :: 0 <= k < |r| && k % 2 == 1 ==> IsSpan(p, r[k])
    decreases |s| - q
  {
    if q == |s| then [s[last..]]
    else match MatchEnd(p, s, q)
      case None => SplitFrom(p, s, last, q + 1)
      case Some(e) => [s[last..q], s[q..e]] + SplitFrom(p, s, e, e)
  }

  /** `s.split(regex)` for a separator that never matches the empty
      string, so an empty input gives `[""]`. */
  function Split(p: Pattern, s: string): (r: seq<string>)
    ensures |r| % 2 == 1
    ensures forall k {:trigger IsSpan(p, r[k])} :: 0 <= k < |r| && k % 2 == 1 ==> IsSpan(p, r[k])
  {
    SplitFrom(p, s, 0, 0)
  }

  lemma {:induction false} SplitFromConcat(p: Pattern, s: string, last: nat, q: nat)
    requires last <= q <= |s|
    ensures Concat(SplitFrom(p, s, last, q)) == s[last..]
    decreases |s| - q
  {
    if q == |s| {
      SplitFromAtEnd(p, s, last);
      ConcatCons(s[last..], []);
    } else if MatchEnd(p, s, q).None? {
      SplitFromConcat(p, s, last, q + 1);
      SplitFromNoMatch(p, s, last, q);
    } else {
      var e := MatchEnd(p, s, q).value;
      var rest := SplitFrom(p, s, e, e);
      SplitFromConcat(p, s, e, e);
      SplitFromAtMatch(p, s, last, q);
      ConcatCons(s[q..e], rest);
      ConcatCons(s[last..q], [s[q..e]] + rest);
      assert [s[last..q], s[q..e]] + rest == [s[last..q]] + ([s[q..e]] + rest);
      SuffixSplit(s, q, e);
      SuffixSplit(s, last, q);
    }
  }

  lemma ConcatCons(x: string, rest: seq<string>)
    ensures Concat([x] + rest) == x + Concat(rest)
  {
    assert ([x] + rest)[1..] == rest;
  }

  /** The split keeps its separators: the parts concatenate back to the
      input. */
  lemma SplitConcat(p: Pattern, s: string)
    ensures Concat(Split(p, s)) == s
  {
    SplitFromConcat(p, s, 0, 0);
  }

  /** Positions where no match starts are passed over by the split. */
  lemma {:induction false} SplitSkip(p: Pattern, s: string, last: nat, q: nat, m: nat)
    requires last <= q <= m <= |s|
    requires forall i :: q <= i < m ==> MatchEnd(p, s, i).None?
    ensures SplitFrom(p, s, last, q) == SplitFrom(p, s, last, m)
    decreases m - q
  {
    if q < m {
      SplitFromNoMatch(p, s, last, q);
      SplitSkip(p, s, last, q + 1, m);
    }
  }

  /** A string in which the pattern matches nowhere is a single part. */
  lemma SplitNoMatch(p: Pattern, s: string)
    requires forall i :: 0 <= i < |s| ==> MatchEnd(p, s, i).None?
    ensures Split(p, s) == [s]
  {
    SplitSkip(p, s, 0, 0, |s|);
  }

  /** Text without a backtick has no fence region. */
  lemma NoBacktickNoFence(s: string)
    requires forall i :: 0 <= i < |s| ==> s[i] != '`'
    ensures Split(FencePattern, s) == [s]
  {
    AbsentWithoutLead(s, Fence, 0, |s|);
    SplitNoMatch(FencePattern, s);
  }

  /** The split around the first match, at `m` and ending at `e`. */
  lemma SplitAtFirstMatch(p: Pattern, s: string, m: nat, e: nat)
    requires m <= |s| && MatchEnd(p, s, m) == Some(e)
    requires forall i :: 0 <= i < m ==> MatchEnd(p, s, i).None?
    ensures Split(p, s) == [s[..m], s[m..e]] + SplitFrom(p, s, e, e)
  {
    SplitSkip(p, s, 0, 0, m);
  }

  /** No match of `p` starts at a position in [from, to). */
  ghost predicate SpanFree(p: Pattern, s: string, from: nat, to: nat) {
    forall i, e {:trigger IsSpan(p, s[i..e])} :: from <= i < to && i < e <= |s| ==> !IsSpan(p, s[i..e])
  }

  /** `parts` is a split of `s[at..]` by a left-to-right scan: the parts
      tile the text, no match starts inside a plain part, and each
      separator is a match that starts where the plain part before it
      ends. */
  ghost predicate IsScan(p: Pattern, s: string, at: nat, parts: seq<string>)
    decreases |parts|
  {
    && |parts| >= 1
    && at + |parts[0]| <= |s|
    && parts[0] == s[at..at + |parts[0]|]
    && SpanFree(p, s, at, at + |parts[0]|)
    && (|parts| == 1 ==> at + |parts[0]| == |s|)
    && (|parts| >= 2 ==>
          var m := at + |parts[0]|;
          && |parts| >= 3
          && m + |parts[1]| <= |s|
          && parts[1] == s[m..m + |parts[1]|]
          && IsSpan(p, parts[1])
          && IsScan(p, s, m + |parts[1]|, parts[2..]))
  }

  lemma ScanCons(p: Pattern, s: string, at: nat, m: nat, e: nat, rest: seq<string>)
    requires at <= m < e <= |s| && SpanFree(p, s, at, m)
    requires IsSpan(p, s[m..e]) && IsScan(p, s, e, rest)
    ensures IsScan(p, s, at, [s[at..m], s[m..e]] + rest)
  {
    var r := [s[at..m], s[m..e]] + rest;
    assert r[2..] == rest;
  }

  lemma {:induction false} SplitFromIsScan(p: Pattern, s: string, last: nat, q: nat)
    requires last <= q <= |s| && SpanFree(p, s, last, q)
    ensures IsScan(p, s, last, SplitFrom(p, s, last, q))
    decreases |s| - q
  {
    if q == |s| {
      SplitFromAtEnd(p, s, last);
      ScanSingle(p, s, last);
    } else if MatchEnd(p, s, q).None? {
      SpanFreeExtend(p, s, last, q);
      SplitFromIsScan(p, s, last, q + 1);
      SplitFromNoMatch(p, s, last, q);
    } else {
      var e := MatchEnd(p, s, q).value;
      SplitFromIsScan(p, s, e, e);
      ScanCons(p, s, last, q, e, SplitFrom(p, s, e, e));
      SplitFromAtMatch(p, s, last, q);
    }
  }

  lemma SplitFromAtEnd(p: Pattern, s: string, last: nat)
    requires last <= |s|
    ensures SplitFrom(p, s, last, |s|) == [s[last..]]
  {
  }

  lemma SplitFromNoMatch(p: Pattern, s: string, last: nat, q: nat)
    requires last <= q < |s| && MatchEnd(p, s, q).None?
    ensures SplitFrom(p, s, last, q) == SplitFrom(p, s, last, q + 1)
  {
  }

  lemma SplitFromAtMatch(p: Pattern, s: string, last: nat, q: nat)
    requires last <= q < |s| && MatchEnd(p, s, q).Some?
    ensures var e := MatchEnd(p, s, q).value;
            SplitFrom(p, s, last, q) == [s[last..q], s[q..e]] + SplitFrom(p, s, e, e)
  {
  }

  lemma SpanFreeExtend(p: Pattern, s: string, from: nat, q: nat)
    requires from <= q < |s| && SpanFree(p, s, from, q) && MatchEnd(p, s, q).None?
    ensures SpanFree(p, s, from, q + 1)
  {
  }

  lemma ScanSingle(p: Pattern, s: string, at: nat)
    requires at <= |s| && SpanFree(p, s, at, |s|)
    ensures IsScan(p, s, at, [s[at..]])
  {
  }

  /** The split is a left-to-right scan of the whole input. */
  lemma SplitIsScan(p: Pattern, s: string)
    ensures IsScan(p, s, 0, Split(p, s))
  {
    SplitFromIsScan(p, s, 0, 0);
  }

  /** At most one match starts at a position: the lazy quantifier admits
      only the shortest. */
  lemma SpanUnique(p: Pattern, t1: string, t2: string)
    requires IsSpan(p, t1) && IsSpan(p, t2) && |t1| <= |t2| && t2[..|t1|] == t1
    ensures t1 == t2
  {
    if |t1| < |t2| {
      match p
      case FencePattern =>
        assert OccursAt(t1, |t1| - 3, Fence);
        OccursAtInfix(t2, 0, |t1|, |t1| - 3, Fence);
      case BoldPattern =>
        assert OccursAt(t1, |t1| - 2, Stars);
        OccursAtInfix(t2, 0, |t1|, |t1| - 2, Stars);
    }
  }

  /** Two infixes of `s` starting at the same position agree up to the
      shorter one's length. */
  lemma SamePrefix(s: string, m: nat, x: string, y: string)
    requires m + |x| <= m + |y| <= |s| && x == s[m..m + |x|] && y == s[m..m + |y|]
    ensures y[..|x|] == x
  {
    forall k | 0 <= k < |x| ensures y[k] == x[k] {
      assert y[k] == s[m + k];
    }
  }

  lemma ScanHeadLength(p: Pattern, s: string, at: nat, a: seq<string>, b: seq<string>)
    requires IsScan(p, s, at, a) && IsScan(p, s, at, b) && |a[0]| <= |b[0]|
    ensures |a[0]| == |b[0]|
  {
  }

  /** Two scans from the same position have equally long first parts. */
  lemma ScanHead(p: Pattern, s: string, at: nat, a: seq<string>, b: seq<string>)
    requires IsScan(p, s, at, a) && IsScan(p, s, at, b)
    ensures |a[0]| == |b[0]|
  {
    if |a[0]| <= |b[0]| {
      ScanHeadLength(p, s, at, a, b);
    } else {
      ScanHeadLength(p, s, at, b, a);
    }
  }

  lemma ScanLast(p: Pattern, s: string, at: nat, a: seq<string>, b: seq<string>)
    requires IsScan(p, s, at, a) && IsScan(p, s, at, b) && |a[0]| == |b[0]| && |a| == 1 && |b| == 1
    ensures a == b
  {
  }

  /** A scan with one part leaves no room for another. */
  lemma ScanEnd(p: Pattern, s: string, at: nat, a: seq<string>, b: seq<string>)
    requires IsScan(p, s, at, a) && IsScan(p, s, at, b) && |a| == 1
    ensures a == b
  {
    ScanHead(p, s, at, a, b);
    if |b| >= 2 {
      ScanTail(p, s, at, b, a);
    } else {
      ScanLast(p, s, at, a, b);
    }
  }

  lemma ScanJoin(p: Pattern, s: string, at: nat, a: seq<string>, b: seq<string>)
    requires IsScan(p, s, at, a) && IsScan(p, s, at, b) && |a[0]| == |b[0]| && |a| >= 2
    requires a[2..] == b[2..]
    ensures a == b
  {
    ScanTail(p, s, at, a, b);
    assert a == a[..2] + a[2..];
    assert b == b[..2] + b[2..];
  }

  lemma ScanTail(p: Pattern, s: string, at: nat, a: seq<string>, b: seq<string>)
    requires IsScan(p, s, at, a) && IsScan(p, s, at, b) && |a[0]| == |b[0]| && |a| >= 2
    ensures |b| >= 3 && a[..2] == b[..2]
  {
    var m := at + |a[0]|;
    var x, y := a[1], b[1];
    if |x| <= |y| {
      SamePrefix(s, m, x, y);
      SpanUnique(p, x, y);
    } else {
      SamePrefix(s, m, y, x);
      SpanUnique(p, y, x);
    }
  }

  /** Two scans from the same position with more than one part go on
      from the same position. */
  lemma ScanStep(p: Pattern, s: string, at: nat, a: seq<string>, b: seq<string>)
    returns (e: nat, a': seq<string>, b': seq<string>)
    requires IsScan(p, s, at, a) && IsScan(p, s, at, b) && |a| >= 2
    ensures a' == a[2..] && b' == b[2..] && |a'| < |a|
    ensures IsScan(p, s, e, a') && IsScan(p, s, e, b')
  {
    ScanHead(p, s, at, a, b);
    ScanTail(p, s, at, a, b);
    e, a', b' := at + |a[0]| + |a[1]|, a[2..], b[2..];
  }

  /** A scan is unique: the conditions of `IsScan` determine the parts,
      so they characterise `Split` completely. */
  lemma {:induction false} ScanUnique(p: Pattern, s: string, at: nat, a: seq<string>, b: seq<string>)
    requires IsScan(p, s, at, a) && IsScan(p, s, at, b)
    ensures a == b
    decreases |a|
  {
    if |a| >= 2 {
      var e, a', b' := ScanStep(p, s, at, a, b);
      ScanUnique(p, s, e, a', b');
      ScanHead(p, s, at, a, b);
      ScanJoin(p, s, at, a, b);
    } else {
      ScanEnd(p, s, at, a, b);
    }
  }

  /** `Split` is exactly the left-to-right scan of its input. */
  lemma SplitIffScan(p: Pattern, s: string, parts: seq<string>)
    ensures parts == Split(p, s) <==> IsScan(p, s, 0, parts)
  {
    SplitIsScan(p, s);
    if IsScan(p, s, 0, parts) {
      ScanUnique(p, s, 0, parts, Split(p, s));
    }
  }

  /** An opening fence followed by a later closing one starts a match. */
  lemma FenceOpensSpan(s: string, i: nat, j: nat)
    requires i + 3 <= j && OccursAt(s, i, Fence) && OccursAt(s, j, Fence)
    ensures !SpanFree(FencePattern, s, i, i + 1)
  {
    assert IndexOf(s, Fence, i + 3).Some?;
    var e := MatchEnd(FencePattern, s, i).value;
    assert IsSpan(FencePattern, s[i..e]);
  }

  /** A plain part that is followed by a match cannot begin with a fence:
      the closing fence of that match would have closed it. */
  lemma PlainPartBeforeMatch(s: string, at: nat, parts: seq<string>)
    requires IsScan(FencePattern, s, at, parts) && |parts| >= 2
    ensures !StartsWith(parts[0], Fence)
  {
    var m := at + |parts[0]|;
    var e := m + |parts[1]|;
    if StartsWith(parts[0], Fence) {
      OccursAtInfix(s, at, m, 0, Fence);
      assert IsFenceSpan(s[m..e]);
      OccursAtInfix(s, m, e, e - m - 3, Fence);
      FenceOpensSpan(s, at, e - 3);
      assert false;
    }
  }

  /** Of the plain parts of the fence split, only the last can begin with
      a fence (an opening fence that is never closed); every earlier one
      is followed by a match that would have closed it. */
  lemma {:induction false} OnlyLastPlainPartOpensFence(s: string, at: nat, parts: seq<string>)
    requires IsScan(FencePattern, s, at, parts)
    ensures forall k :: 0 <= k < |parts| - 1 && k % 2 == 0 ==> !StartsWith(parts[k], Fence)
    decreases |parts|
  {
    if |parts| >= 2 {
      PlainPartBeforeMatch(s, at, parts);
      OnlyLastPlainPartOpensFence(s, at + |parts[0]| + |parts[1]|, parts[2..]);
      forall k | 2 <= k < |parts| - 1 && k % 2 == 0 ensures !StartsWith(parts[k], Fence) {
        assert parts[k] == parts[2..][k - 2];
      }
    }
  }

  // ---------------------------------------------------------------------
  // Code blocks: `/```(\w*)\n([\s\S]*?)```/` and its fallback
  // ---------------------------------------------------------------------

  /** The regular-expression class `\w`. */
  predicate IsWordChar(c: char) {
    ('a' <= c <= 'z') || ('A' <= c <= 'Z') || ('0' <= c <= '9') || c == '_'
  }

  predicate AllWordChars(w: string) {
    forall i :: 0 <= i < |w| ==> IsWordChar(w[i])
  }

  /** The info-string pattern matches at `i` with captures `language` and
      `body`: a fence, a run of word characters, a newline, then the
      shortest text up to the next fence. */
  predicate IsInfoMatchAt(s: string, i: nat, language: string, body: string) {
    var b := i + 3 + |language| + 1;
    && OccursAt(s, i, Fence + language + "\n" + body + Fence)
    && AllWordChars(language)
    && AbsentBetween(s, Fence, b, b + |body|)
  }

  /** Where the greedy `\w*` starting at `i` stops. */
  function WordRunEnd(s: string, i: nat): (k: nat)
    requires i <= |s|
    ensures i <= k <= |s| && AllWordChars(s[i..k])
    ensures k < |s| ==> !IsWordChar(s[k])
    decreases |s| - i
  {
    if i < |s| && IsWordChar(s[i]) then
      var k := WordRunEnd(s, i + 1);
      assert s[i..k] == [s[i]] + s[i + 1..k];
      k
    else i
  }

  datatype InfoMatch = InfoMatch(language: string, body: string)

  /** The info-string pattern tried at position `i` only. */
  function InfoMatchAt(s: string, i: nat): (r: Option<InfoMatch>)
    requires i <= |s|
    ensures r.Some? ==> IsInfoMatchAt(s, i, r.value.language, r.value.body)
    ensures r.None? ==> forall language, body :: !IsInfoMatchAt(s, i, language, body)
  {
    if !OccursAt(s, i, Fence) then
      assert forall language, body :: !IsInfoMatchAt(s, i, language, body) by {
        forall language, body | IsInfoMatchAt(s, i, language, body) ensures false {
          InfoMatchShape(s, i, language, body);
        }
      }
      None
    else
      var k := WordRunEnd(s, i + 3);
      if k < |s| && s[k] == '\n' then
        match IndexOf(s, Fence, k + 1)
        case Some(j) =>
          InfoMatchFound(s, i, k, j);
          Some(InfoMatch(s[i + 3..k], s[k + 1..j]))
        case None =>
          assert forall language, body :: !IsInfoMatchAt(s, i, language, body) by {
            forall language, body | IsInfoMatchAt(s, i, language, body) ensures false {
              InfoMatchShape(s, i, language, body);
            }
          }
          None
      else
        assert forall language, body :: !IsInfoMatchAt(s, i, language, body) by {
          forall language, body | IsInfoMatchAt(s, i, language, body) ensures false {
            InfoMatchShape(s, i, language, body);
          }
        }
        None
  }

  lemma InfoMatchFound(s: string, i: nat, k: nat, j: nat)
    requires OccursAt(s, i, Fence) && i + 3 <= k < |s| && s[k] == '\n'
    requires AllWordChars(s[i + 3..k])
    requires k + 1 <= j && OccursAt(s, j, Fence) && AbsentBetween(s, Fence, k + 1, j)
    ensures IsInfoMatchAt(s, i, s[i + 3..k], s[k + 1..j])
  {
    var language, body := s[i + 3..k], s[k + 1..j];
    var w := Fence + language + "\n" + body + Fence;
    assert s[i..j + 3] == s[i..i + 3] + s[i + 3..k] + s[k..k + 1] + s[k + 1..j] + s[j..j + 3];
    assert s[i..j + 3] == w;
  }

  /** Any info-string match at `i` has the word run for its language and
      the first fence after the newline for its end. */
  lemma InfoMatchShape(s: string, i: nat, language: string, body: string)
    requires IsInfoMatchAt(s, i, language, body)
    ensures OccursAt(s, i, Fence)
    ensures WordRunEnd(s, i + 3) == i + 3 + |language|
    ensures s[i + 3 + |language|] == '\n'
    ensures IndexOf(s, Fence, i + 3 + |language| + 1) == Some(i + 3 + |language| + 1 + |body|)
    ensures language == s[i + 3..i + 3 + |language|]
    ensures body == s[i + 3 + |language| + 1..i + 3 + |language| + 1 + |body|]
  {
    InfoMatchPieces(s, i, language, body);
    InfoLanguageIsWordRun(s, i, language, body);
    InfoBodyEndsAtFence(s, i, language, body);
  }

  lemma InfoLanguageIsWordRun(s: string, i: nat, language: string, body: string)
    requires IsInfoMatchAt(s, i, language, body)
    ensures WordRunEnd(s, i + 3) == i + 3 + |language|
  {
    InfoMatchPieces(s, i, language, body);
    WordRunStops(s, i + 3, i + 3 + |language|);
  }

  lemma InfoBodyEndsAtFence(s: string, i: nat, language: string, body: string)
    requires IsInfoMatchAt(s, i, language, body)
    ensures IndexOf(s, Fence, i + 3 + |language| + 1) == Some(i + 3 + |language| + 1 + |body|)
  {
    var k := i + 3 + |language|;
    InfoMatchPieces(s, i, language, body);
    IndexOfIs(s, Fence, k + 1, k + 1 + |body|);
  }

  /** The text an info-string match covers, piece by piece. */
  lemma InfoMatchPieces(s: string, i: nat, language: string, body: string)
    requires IsInfoMatchAt(s, i, language, body)
    ensures var k := i + 3 + |language|;
            var j := k + 1 + |body|;
            && j + 3 <= |s|
            && OccursAt(s, i, Fence) && OccursAt(s, j, Fence)
            && s[i + 3..k] == language && s[k] == '\n' && !IsWordChar(s[k])
            && s[k + 1..j] == body
            && AllWordChars(s[i + 3..k])
  {
    var w := Fence + language + "\n" + body + Fence;
    var k := 3 + |language|;
    var j := k + 1 + |body|;
    InfoWordParts(language, body);
    OccursSlice(s, i, w, 0, 3);
    OccursSlice(s, i, w, 3, k);
    OccursSlice(s, i, w, k, k + 1);
    OccursSlice(s, i, w, k + 1, j);
    OccursSlice(s, i, w, j, j + 3);
    assert s[i + k..i + k + 1][0] == s[i + k];
  }

  /** The pieces of the text an info-string match covers. */
  lemma InfoWordParts(language: string, body: string)
    ensures var w := Fence + language + "\n" + body + Fence;
            var k := 3 + |language|;
            && |w| == k + 1 + |body| + 3
            && w[0..3] == Fence && w[3..k] == language && w[k..k + 1] == "\n"
            && w[k + 1..k + 1 + |body|] == body && w[k + 1 + |body|..k + 1 + |body| + 3] == Fence
  {
    var w := Fence + language + "\n" + body + Fence;
    var k := 3 + |language|;
    var j := k + 1 + |body|;
    assert w == (Fence + language) + ("\n" + body + Fence);
    assert w[0..3] == Fence;
    assert w[3..k] == language;
    assert w[k..k + 1] == "\n";
    assert w[k + 1..j] == body;
    assert w[j..j + 3] == Fence;
  }

  lemma WordRunStops(s: string, i: nat, k: nat)
    requires i <= k < |s| && AllWordChars(s[i..k]) && !IsWordChar(s[k])
    ensures WordRunEnd(s, i) == k
    decreases k - i
  {
    if i < k {
      assert s[i] == s[i..k][0];
      assert s[i + 1..k] == s[i..k][1..];
      WordRunStops(s, i + 1, k);
    }
  }

  /** `part.match(...)`: the leftmost position at or after `from` where
      the info-string pattern matches. */
  function FindInfoMatch(s: string, from: nat): (r: Option<InfoMatch>)
    requires from <= |s|
    ensures r.Some? ==> exists i :: from <= i <= |s| && IsInfoMatchAt(s, i, r.value.language, r.value.body)
                                   && NoInfoMatchBetween(s, from, i)
    ensures r.None? ==> NoInfoMatchBetween(s, from, |s| + 1)
    decreases |s| - from
  {
    match InfoMatchAt(s, from)
    case Some(m) => Some(m)
    case None =>
      if from == |s| then None
      else FindInfoMatch(s, from + 1)
  }

  ghost predicate NoInfoMatchBetween(s: string, from: nat, to: nat) {
    forall i, language, body :: from <= i < to ==> !IsInfoMatchAt(s, i, language, body)
  }

  /** The captures at a given position are unique. */
  lemma InfoMatchUnique(s: string, i: nat, l1: string, b1: string, l2: string, b2: string)
    requires IsInfoMatchAt(s, i, l1, b1) && IsInfoMatchAt(s, i, l2, b2)
    ensures l1 == l2 && b1 == b2
  {
    InfoMatchShape(s, i, l1, b1);
    InfoMatchShape(s, i, l2, b2);
  }

  /** A code part as a code block. The language is the captured word run,
      or "code" when the pattern fails or captures nothing; the body is
      the captured text, or the part with three characters cut from each
      end (JavaScript `slice(3, -3)`) when the pattern fails or captures
      nothing. */
  function CodeBlock(part: string): (r: Segment)
    ensures r.Code? && r.language != ""
    ensures NoInfoMatchBetween(part, 0, |part| + 1) ==> r == Code(DefaultLanguage, SliceInner(part, 3, 3))
    ensures forall i: nat, language, body :: IsInfoMatchAt(part, i, language, body) && NoInfoMatchBetween(part, 0, i) ==>
      && r.language == (if language == "" then DefaultLanguage else language)
      && r.body == (if body == "" then SliceInner(part, 3, 3) else body)
  {
    var m := FindInfoMatch(part, 0);
    var language := if m.Some? && m.value.language != "" then m.value.language else DefaultLanguage;
    var body := if m.Some? && m.value.body != "" then m.value.body else SliceInner(part, 3, 3);
    assert forall i: nat, l, b :: IsInfoMatchAt(part, i, l, b) && NoInfoMatchBetween(part, 0, i) ==> m == Some(InfoMatch(l, b)) by {
      forall i: nat, l, b | IsInfoMatchAt(part, i, l, b) && NoInfoMatchBetween(part, 0, i) ensures m == Some(InfoMatch(l, b)) {
        var i' :| 0 <= i' <= |part| && IsInfoMatchAt(part, i', m.value.language, m.value.body) && NoInfoMatchBetween(part, 0, i');
        if i' < i {
        } else if i < i' {
        } else {
          InfoMatchUnique(part, i, l, b, m.value.language, m.value.body);
        }
      }
    }
    Code(language, body)
  }

  /** A code part with a leftmost info-string match that captures a
      non-empty language and body is that language and body. */
  lemma CodeBlockOfMatch(part: string, i: nat, language: string, body: string)
    requires IsInfoMatchAt(part, i, language, body) && NoInfoMatchBetween(part, 0, i)
    requires language != "" && body != ""
    ensures CodeBlock(part) == Code(language, body)
  {
  }

  /** A code body is verbatim text of its part: no inline processing
      touches it. */
  lemma CodeBodyVerbatim(part: string)
    ensures exists i :: OccursAt(part, i, CodeBlock(part).body)
  {
    var m := FindInfoMatch(part, 0);
    var body := CodeBlock(part).body;
    CodeBlockBody(part);
    if m.Some? && m.value.body != "" {
      var i :| 0 <= i <= |part| && IsInfoMatchAt(part, i, m.value.language, m.value.body) && NoInfoMatchBetween(part, 0, i);
      var x := InfoBodyOccurs(part, i, m.value.language, m.value.body);
      assert OccursAt(part, x, body);
    } else {
      SliceInnerOccurs(part, 3, 3);
    }
  }

  /** The captured body of an info-string match occurs in the text. */
  lemma InfoBodyOccurs(s: string, i: nat, language: string, body: string) returns (x: nat)
    requires IsInfoMatchAt(s, i, language, body)
    ensures OccursAt(s, x, body)
  {
    var w := Fence + language + "\n" + body + Fence;
    var k := 3 + |language|;
    InfoWordParts(language, body);
    OccursSlice(s, i, w, k + 1, k + 1 + |body|);
    x := i + k + 1;
  }

  lemma CodeBlockBody(part: string)
    ensures var m := FindInfoMatch(part, 0);
            CodeBlock(part).body == if m.Some? && m.value.body != "" then m.value.body else SliceInner(part, 3, 3)
  {
  }

  // ---------------------------------------------------------------------
  // Bold spans
  // ---------------------------------------------------------------------

  /** One sub-part of the bold split: when it starts and ends with `**` it
      is bold with two characters cut from each end (JavaScript
      `slice(2, -2)`); any other sub-part is kept verbatim. */
  function Classify(sub: string): (r: Inline)
    ensures r.Bold? <==> StartsWith(sub, Stars) && EndsWith(sub, Stars)
    ensures r.Plain? ==> r.text == sub
    ensures r.Bold? && |sub| >= 4 ==> sub == Stars + r.text + Stars
    ensures r.Bold? && |sub| < 4 ==> r.text == ""
  {
    if StartsWith(sub, Stars) && EndsWith(sub, Stars) then Bold(SliceInner(sub, 2, 2)) else Plain(sub)
  }

  /** Text wrapped in `**` is bold with exactly that text. */
  lemma ClassifyWrapped(x: string)
    ensures Classify(Stars + x + Stars) == Bold(x)
  {
    var t := Stars + x + Stars;
    assert t[..2] == Stars;
    assert t[|t| - 2..] == Stars;
    assert t[2..|t| - 2] == x;
  }

  /** Text whose first character is not `*` stays plain. */
  lemma ClassifyUnmarked(t: string)
    requires |t| > 0 && t[0] != '*'
    ensures Classify(t) == Plain(t)
  {
    MismatchAt(t, 0, Stars, 0);
  }

  /** The inline runs of a non-code part: its bold split, each sub-part
      classified. The separators of the split become bold runs whose text
      neither contains a line terminator nor a `**`. */
  function FormatInline(part: string): (r: seq<Inline>)
    ensures |r| == |Split(BoldPattern, part)| && |r| % 2 == 1
    ensures forall k :: 0 <= k < |r| ==>
      var sub := Split(BoldPattern, part)[k];
      && (r[k].Bold? <==> StartsWith(sub, Stars) && EndsWith(sub, Stars))
      && (r[k].Plain? ==> r[k].text == sub)
      && (r[k].Bold? ==> r[k].text == SliceInner(sub, 2, 2))
    ensures forall k :: 0 <= k < |r| && k % 2 == 1 ==>
      && r[k].Bold?
      && Split(BoldPattern, part)[k] == Stars + r[k].text + Stars
      && (forall c :: c in r[k].text ==> !IsLineTerminator(c))
      && !Includes(r[k].text, Stars)
  {
    var subs := Split(BoldPattern, part);
    var r := seq(|subs|, k requires 0 <= k < |subs| => Classify(subs[k]));
    forall k | 0 <= k < |r| && k % 2 == 1
      ensures r[k].Bold? && subs[k] == Stars + r[k].text + Stars
      ensures (forall c :: c in r[k].text ==> !IsLineTerminator(c)) && !Includes(r[k].text, Stars)
    {
      assert IsSpan(BoldPattern, subs[k]);
      BoldSpanInner(subs[k]);
    }
    r
  }

  /** The inline runs are the sub-parts classified one by one. */
  lemma FormatInlineIs(part: string, subs: seq<string>)
    requires Split(BoldPattern, part) == subs
    ensures FormatInline(part) == seq(|subs|, k requires 0 <= k < |subs| => Classify(subs[k]))
  {
  }

  /** A part whose bold split has three sub-parts has three runs. */
  lemma FormatInlineThree(part: string, a: string, b: string, c: string)
    requires Split(BoldPattern, part) == [a, b, c]
    ensures FormatInline(part) == [Classify(a), Classify(b), Classify(c)]
  {
    var subs := [a, b, c];
    FormatInlineIs(part, subs);
    var r := seq(|subs|, k requires 0 <= k < |subs| => Classify(subs[k]));
    assert r[0] == Classify(a) && r[1] == Classify(b) && r[2] == Classify(c);
  }

  /** The text between the markers of a bold span has neither a line
      terminator nor a `**`. */
  lemma BoldSpanInner(t: string)
    requires IsBoldSpan(t)
    ensures Classify(t) == Bold(t[2..|t| - 2])
    ensures forall c :: c in t[2..|t| - 2] ==> !IsLineTerminator(c)
    ensures !Includes(t[2..|t| - 2], Stars)
  {
    var inner := t[2..|t| - 2];
    assert t == t[..2] + inner + t[|t| - 2..];
    forall c | c in inner ensures !IsLineTerminator(c) {
      var k :| 0 <= k < |inner| && inner[k] == c;
      assert inner[k] == t[k + 2];
    }
    if Includes(inner, Stars) {
      var k := IndexOf(inner, Stars, 0).value;
      OccursAtInfix(t, 2, |t| - 2, k, Stars);
      assert false;
    }
  }

  /** The raw text an inline run stands for when it came from a genuine
      span. */
  function Source(x: Inline): string {
    match x
    case Plain(t) => t
    case Bold(t) => Stars + t + Stars
  }

  function Sources(xs: seq<Inline>): string {
    if |xs| == 0 then "" else Source(xs[0]) + Sources(xs[1..])
  }

  /** Bold processing loses nothing except when a sub-part shorter than
      four characters is both started and ended by `**` (a lone `**` or
      `***`), whose markers are dropped. */
  lemma FormatInlineRoundTrip(part: string)
    requires forall k :: 0 <= k < |Split(BoldPattern, part)| ==>
      var sub := Split(BoldPattern, part)[k];
      |sub| >= 4 || !(StartsWith(sub, Stars) && EndsWith(sub, Stars))
    ensures Sources(FormatInline(part)) == part
  {
    var subs := Split(BoldPattern, part);
    var r := FormatInline(part);
    SourcesConcat(subs, r);
    SplitConcat(BoldPattern, part);
  }

  lemma {:induction false} SourcesConcat(subs: seq<string>, r: seq<Inline>)
    requires |subs| == |r|
    requires forall k :: 0 <= k < |r| ==> Source(r[k]) == subs[k]
    ensures Sources(r) == Concat(subs)
  {
    if |r| > 0 {
      SourcesConcat(subs[1..], r[1..]);
    }
  }

  // ---------------------------------------------------------------------
  // The renderer
  // ---------------------------------------------------------------------

  /** One part of the fence split: code when it starts with a fence,
      inline text otherwise. */
  function RenderPart(part: string): (r: Segment)
    ensures r.Code? <==> StartsWith(part, Fence)
  {
    if StartsWith(part, Fence) then CodeBlock(part) else Text(FormatInline(part))
  }

  /** `renderContent(content)`: one segment per part of the fence split.
      Closed fence regions always become code blocks, and code is decided
      before any bold processing. */
  function RenderContent(content: string): (r: seq<Segment>)
    ensures |r| == |Split(FencePattern, content)| && |r| % 2 == 1
    ensures forall k :: 0 <= k < |r| ==> (r[k].Code? <==> StartsWith(Split(FencePattern, content)[k], Fence))
    ensures forall k :: 0 <= k < |r| && k % 2 == 1 ==> r[k].Code?
    ensures forall k :: 0 <= k < |r| && r[k].Code? ==> r[k] == CodeBlock(Split(FencePattern, content)[k])
    ensures forall k :: 0 <= k < |r| && r[k].Text? ==> r[k].inlines == FormatInline(Split(FencePattern, content)[k])
  {
    var parts := Split(FencePattern, content);
    assert forall k :: 0 <= k < |parts| && k % 2 == 1 ==> IsSpan(FencePattern, parts[k]);
    seq(|parts|, k requires 0 <= k < |parts| => RenderPart(parts[k]))
  }

  /** The segments are the parts rendered one by one. */
  lemma RenderContentIs(content: string, parts: seq<string>)
    requires Split(FencePattern, content) == parts
    ensures RenderContent(content) == seq(|parts|, k requires 0 <= k < |parts| => RenderPart(parts[k]))
  {
  }

  /** Content that is one fence region with nothing around it renders as
      that code block between two empty text segments. */
  lemma RenderSingleFence(content: string)
    requires Split(FencePattern, content) == ["", content, ""] && StartsWith(content, Fence)
    ensures RenderContent(content) == [Text([Plain("")]), CodeBlock(content), Text([Plain("")])]
  {
    RenderContentThree(content, "", content, "");
    RenderEmptyPart();
  }

  /** Content whose fence split has three parts renders as three segments. */
  lemma RenderContentThree(content: string, a: string, b: string, c: string)
    requires Split(FencePattern, content) == [a, b, c]
    ensures RenderContent(content) == [RenderPart(a), RenderPart(b), RenderPart(c)]
  {
    var parts := [a, b, c];
    RenderContentIs(content, parts);
    var r := seq(|parts|, k requires 0 <= k < |parts| => RenderPart(parts[k]));
    assert r[0] == RenderPart(a) && r[1] == RenderPart(b) && r[2] == RenderPart(c);
  }

  /** The empty part renders as one empty text run. */
  lemma RenderEmptyPart()
    ensures RenderPart("") == Text([Plain("")])
  {
    assert Split(BoldPattern, "") == [""];
    FormatInlineIs("", [""]);
  }

  /** Code comes only from closed fence regions and from a trailing
      unclosed fence: every other plain part is rendered as text. */
  lemma OnlyClosedOrTrailingFenceIsCode(content: string)
    ensures var r := RenderContent(content);
            forall k :: 0 <= k < |r| - 1 && k % 2 == 0 ==> r[k].Text?
  {
    SplitIsScan(FencePattern, content);
    OnlyLastPlainPartOpensFence(content, 0, Split(FencePattern, content));
  }
}
