/** The handful of JavaScript string operations the chat front-end uses,
    written out over `seq<char>`: `trim`, `toLowerCase` for the characters
    whose lower case is ASCII, `includes`,
    `startsWith`/`endsWith`, `slice(a, -b)` and `substring(0, n)`. */
module Strings {
  import opened Wrappers

  /** `t` occurs in `s` starting at index `i`. */
  predicate OccursAt(s: string, i: nat, t: string) {
    i + |t| <= |s| && s[i..i + |t|] == t
  }

  /** An occurrence inside the infix `s[a..b]` is an occurrence in `s`
      that ends by `b`. */
  lemma OccursAtInfix(s: string, a: nat, b: nat, k: nat, t: string)
    requires a <= b <= |s|
    ensures OccursAt(s[a..b], k, t) <==> a + k + |t| <= b && OccursAt(s, a + k, t)
  {
    if a + k + |t| <= b {
      var x, y := s[a..b][k..k + |t|], s[a + k..a + k + |t|];
      forall m | 0 <= m < |t| ensures x[m] == y[m] {
        assert x[m] == s[a..b][k + m] == s[a + k + m];
      }
      assert x == y;
    }
  }

  /** A slice of an occurrence is the same slice of the occurring text. */
  lemma OccursSlice(s: string, i: nat, w: string, a: nat, b: nat)
    requires OccursAt(s, i, w) && a <= b <= |w|
    ensures s[i + a..i + b] == w[a..b]
  {
    forall k | 0 <= k < b - a ensures s[i + a..i + b][k] == w[a..b][k] {
      assert s[i + a + k] == s[i..i + |w|][a + k];
    }
  }

  /** A suffix is its first piece followed by the rest. */
  lemma SuffixSplit(s: string, a: nat, b: nat)
    requires a <= b <= |s|
    ensures s[a..] == s[a..b] + s[b..]
  {
  }

  predicate StartsWith(s: string, t: string) {
    OccursAt(s, 0, t)
  }

  predicate EndsWith(s: string, t: string) {
    |t| <= |s| && s[|s| - |t|..] == t
  }

  /** No occurrence of `t` starts at an index in [from, to). */
  predicate AbsentBetween(s: string, t: string, from: nat, to: nat) {
    forall k :: from <= k < to ==> !OccursAt(s, k, t)
  }

  /** JavaScript `indexOf(t, from)`: the first index at or after `from`
      where `t` occurs, or None. */
  function IndexOf(s: string, t: string, from: nat): (r: Option<nat>)
    requires |t| > 0
    ensures r.Some? ==> from <= r.value && OccursAt(s, r.value, t) && AbsentBetween(s, t, from, r.value)
    ensures r.None? ==> forall k :: from <= k ==> !OccursAt(s, k, t)
    decreases |s| - from
  {
    if from + |t| > |s| then None
    else if s[from..from + |t|] == t then Some(from)
    else IndexOf(s, t, from + 1)
  }

  /** `IndexOf` is determined by an occurrence with none before it. */
  lemma IndexOfIs(s: string, t: string, from: nat, j: nat)
    requires |t| > 0 && from <= j && OccursAt(s, j, t) && AbsentBetween(s, t, from, j)
    ensures IndexOf(s, t, from) == Some(j)
  {
  }

  /** One mismatching character rules out an occurrence. */
  lemma MismatchAt(s: string, i: nat, t: string, m: nat)
    requires m < |t| && i + m < |s| && s[i + m] != t[m]
    ensures !OccursAt(s, i, t)
  {
    if i + |t| <= |s| {
      assert s[i..i + |t|][m] == s[i + m];
    }
  }

  /** No occurrence of `t` starts where its first character is missing. */
  lemma AbsentWithoutLead(s: string, t: string, from: nat, to: nat)
    requires |t| > 0 && to <= |s|
    requires forall k :: from <= k < to ==> s[k] != t[0]
    ensures AbsentBetween(s, t, from, to)
  {
    forall k | from <= k < to ensures !OccursAt(s, k, t) {
      assert k + |t| <= |s| ==> s[k..k + |t|][0] == s[k];
    }
  }

  /** JavaScript `s.includes(t)` for a non-empty needle. */
  predicate Includes(s: string, t: string): (r: bool)
    requires |t| > 0
    ensures r <==> exists i :: OccursAt(s, i, t)
  {
    var j := IndexOf(s, t, 0);
    assert j.Some? ==> OccursAt(s, j.value, t);
    j.Some?
  }

  /** A needle with a character the haystack lacks is not included. */
  lemma MissingCharNotIncluded(s: string, t: string, c: char)
    requires |t| > 0 && c in t && c !in s
    ensures !Includes(s, t)
  {
  }

  /** The characters JavaScript's `trim` removes: the WhiteSpace production
      (TAB, VT, FF, SP, NBSP, ZWNBSP and every Zs space separator) and the
      LineTerminator production (LF, CR, LS, PS) of ECMA-262. */
  predicate IsWhitespace(c: char) {
    c == '\t' || c == '\U{000B}' || c == '\U{000C}' || c == ' ' || c == '\U{00A0}' || c == '\U{FEFF}'
    || c == '\U{1680}' || ('\U{2000}' <= c <= '\U{200A}') || c == '\U{202F}' || c == '\U{205F}'
    || c == '\U{3000}' || IsLineTerminator(c)
  }

  /** The characters the regular-expression `.` does not match. */
  predicate IsLineTerminator(c: char) {
    c == '\n' || c == '\r' || c == '\U{2028}' || c == '\U{2029}'
  }

  predicate IsBlank(s: string) {
    forall i :: 0 <= i < |s| ==> IsWhitespace(s[i])
  }

  function TrimStart(s: string): (r: string)
    ensures |r| <= |s| && r == s[|s| - |r|..]
    ensures IsBlank(s[..|s| - |r|])
    ensures |r| > 0 ==> !IsWhitespace(r[0])
  {
    if |s| > 0 && IsWhitespace(s[0]) then
      var r := TrimStart(s[1..]);
      assert s[1..][..|s[1..]| - |r|] == s[1..|s| - |r|];
      r
    else s
  }

  function TrimEnd(s: string): (r: string)
    ensures |r| <= |s| && r == s[..|r|]
    ensures IsBlank(s[|r|..])
    ensures |r| > 0 ==> !IsWhitespace(r[|r| - 1])
  {
    if |s| > 0 && IsWhitespace(s[|s| - 1]) then
      var r := TrimEnd(s[..|s| - 1]);
      assert s[..|s| - 1][|r|..] == s[|r|..|s| - 1];
      r
    else s
  }

  /** JavaScript `trim`: the infix of `s` left after removing the
      whitespace run at each end; it neither starts nor ends with
      whitespace. */
  function Trim(s: string): (r: string)
    ensures exists i: nat :: OccursAt(s, i, r) && IsBlank(s[..i]) && IsBlank(s[i + |r|..])
    ensures |r| > 0 ==> !IsWhitespace(r[0]) && !IsWhitespace(r[|r| - 1])
  {
    var a := TrimStart(s);
    var r := TrimEnd(a);
    var i := |s| - |a|;
    assert s[i..i + |r|] == r;
    assert s[i + |r|..] == a[|r|..];
    assert OccursAt(s, i, r);
    r
  }

  /** `!s.trim()` holds exactly for strings made only of whitespace. */
  lemma TrimEmptyIffBlank(s: string)
    ensures Trim(s) == "" <==> IsBlank(s)
  {
    var r := Trim(s);
    var i: nat :| OccursAt(s, i, r) && IsBlank(s[..i]) && IsBlank(s[i + |r|..]);
    if r == "" {
      forall k | 0 <= k < |s| ensures IsWhitespace(s[k]) {
        if k < i {
          assert s[k] == s[..i][k];
        } else {
          assert s[k] == s[i..][k - i];
        }
      }
    } else {
      assert s[i] == r[0];
    }
  }

  predicate IsUpper(c: char) {
    'A' <= c <= 'Z'
  }

  /** U+212A KELVIN SIGN: the one character outside ASCII whose lower
      case is a single ASCII letter ('k'). */
  const Kelvin: char := '\U{212A}'

  /** Lower-cases an ASCII capital letter and the Kelvin sign; every other
      character is kept. */
  function LowerChar(c: char): (r: char)
    ensures IsUpper(c) ==> 'a' <= r <= 'z' && r as int - c as int == 32
    ensures c == Kelvin ==> r == 'k'
    ensures !IsUpper(c) && c != Kelvin ==> r == c
  {
    if IsUpper(c) then (c as int + 32) as char
    else if c == Kelvin then 'k'
    else c
  }

  /** `toLowerCase` restricted to ASCII letters and the Kelvin sign. */
  function Lower(s: string): (r: string)
    ensures |r| == |s|
    ensures forall i :: 0 <= i < |s| ==> r[i] == LowerChar(s[i])
  {
    seq(|s|, i requires 0 <= i < |s| => LowerChar(s[i]))
  }

  /** Lower-casing twice is lower-casing once. */
  lemma LowerIdempotent(s: string)
    ensures Lower(Lower(s)) == Lower(s)
  {
    forall i | 0 <= i < |s| ensures Lower(Lower(s))[i] == Lower(s)[i] {
      assert Lower(s)[i] == LowerChar(s[i]);
    }
  }

  /** JavaScript `s.slice(a, -b)` for a >= 0 and b > 0: drops `a`
      characters from the front and `b` from the back, and yields "" when
      the end index does not exceed the start index. */
  function SliceInner(s: string, a: nat, b: nat): (r: string)
    ensures |r| == if |s| >= a + b then |s| - a - b else 0
    ensures |s| >= a + b ==> s == s[..a] + r + s[|s| - b..]
  {
    if |s| > a + b then s[a..|s| - b] else ""
  }

  /** What `slice(a, -b)` leaves occurs in the string. */
  lemma SliceInnerOccurs(s: string, a: nat, b: nat)
    ensures exists i :: OccursAt(s, i, SliceInner(s, a, b))
  {
    if |s| > a + b {
      assert OccursAt(s, a, SliceInner(s, a, b));
    } else {
      assert OccursAt(s, 0, SliceInner(s, a, b));
    }
  }

  /** JavaScript `s.substring(0, n)`. */
  function Prefix(s: string, n: nat): (r: string)
    ensures |r| == if |s| < n then |s| else n
    ensures StartsWith(s, r)
  {
    if |s| < n then s else s[..n]
  }
}
