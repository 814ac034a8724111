/**
 * The Python string operations the generation server relies on:
 * `str.strip()` with no argument, the `in` test for a substring, and
 * `str.split(sep)` with a non-empty separator. Each is written over
 * indices into the text and gives the same results as CPython.
 */
module Text {

  datatype Option<T> = None | Some(value: T)

  /** Python's `str.isspace()` for one code point: the characters `strip()` removes by default. */
  predicate IsWhitespace(c: char)
    ensures IsWhitespace(c) <==> c in {
      '\t', '\n', '\U{0B}', '\U{0C}', '\r', '\U{1C}', '\U{1D}', '\U{1E}', '\U{1F}', ' ',
      '\U{85}', '\U{A0}', '\U{1680}',
      '\U{2000}', '\U{2001}', '\U{2002}', '\U{2003}', '\U{2004}', '\U{2005}',
      '\U{2006}', '\U{2007}', '\U{2008}', '\U{2009}', '\U{200A}',
      '\U{2028}', '\U{2029}', '\U{202F}', '\U{205F}', '\U{3000}'}
  {
    || ('\t' <= c <= '\r')
    || ('\U{1C}' <= c <= '\U{1F}')
    || c == ' '
    || c == '\U{85}'
    || c == '\U{A0}'
    || c == '\U{1680}'
    || ('\U{2000}' <= c <= '\U{200A}')
    || c == '\U{2028}'
    || c == '\U{2029}'
    || c == '\U{202F}'
    || c == '\U{205F}'
    || c == '\U{3000}'
  }

  predicate AllWhitespace(s: string) {
    forall i | 0 <= i < |s| :: IsWhitespace(s[i])
  }

  /** Neither end of `s` is whitespace. */
  predicate IsTrimmed(s: string) {
    s == [] || (!IsWhitespace(s[0]) && !IsWhitespace(s[|s| - 1]))
  }

  /** `r` sits at index `lead` of `s`, and every character around it is whitespace. */
  predicate PaddedAt(s: string, lead: int, r: string) {
    && 0 <= lead && lead + |r| <= |s|
    && s[lead..lead + |r|] == r
    && (forall p | 0 <= p < lead :: IsWhitespace(s[p]))
    && (forall p | lead + |r| <= p < |s| :: IsWhitespace(s[p]))
  }

  /** Where the left scan of `strip()` stops: the first index from `i` on that is not whitespace, or the end. */
  function SkipWhitespace(s: string, i: nat): (k: nat)
    requires i <= |s|
    ensures i <= k <= |s|
    ensures forall p | i <= p < k :: IsWhitespace(s[p])
    ensures k < |s| ==> !IsWhitespace(s[k])
    decreases |s| - i
  {
    if i < |s| && IsWhitespace(s[i]) then SkipWhitespace(s, i + 1) else i
  }

  /**
   * Where the right scan of `strip()` stops: moving down from `j`, but not
   * below `lo`, the index just after the last character that is not whitespace.
   */
  function SkipWhitespaceBack(s: string, lo: nat, j: nat): (k: nat)
    requires lo <= j <= |s|
    ensures lo <= k <= j
    ensures forall p | k <= p < j :: IsWhitespace(s[p])
    ensures lo < k ==> !IsWhitespace(s[k - 1])
    decreases j - lo
  {
    if lo < j && IsWhitespace(s[j - 1]) then SkipWhitespaceBack(s, lo, j - 1) else j
  }

  /** `s.strip()`: the text of `s` without whitespace at either end. */
  function Strip(s: string): (r: string)
    ensures |r| <= |s|
    ensures IsTrimmed(r)
    ensures exists lead :: PaddedAt(s, lead, r)
  {
    var i := SkipWhitespace(s, 0);
    var j := SkipWhitespaceBack(s, i, |s|);
    assert PaddedAt(s, i, s[i..j]);
    s[i..j]
  }

  /** The left scan stops exactly at the first non-whitespace index from `i` on. */
  lemma SkipWhitespaceAt(s: string, i: nat, k: nat)
    requires i <= k <= |s|
    requires forall p | i <= p < k :: IsWhitespace(s[p])
    requires k < |s| ==> !IsWhitespace(s[k])
    ensures SkipWhitespace(s, i) == k
  {
  }

  /** The right scan stops exactly after the last non-whitespace character of `s[lo..j]`. */
  lemma SkipWhitespaceBackAt(s: string, lo: nat, j: nat, k: nat)
    requires lo <= k <= j <= |s|
    requires forall p | k <= p < j :: IsWhitespace(s[p])
    requires lo < k ==> !IsWhitespace(s[k - 1])
    ensures SkipWhitespaceBack(s, lo, j) == k
  {
  }

  /**
   * The reference meaning of `strip()`: whatever whitespace surrounds a
   * text with no whitespace at its ends, `strip()` gives back that text.
   */
  lemma StripRemovesPadding(a: string, b: string, c: string)
    requires AllWhitespace(a) && AllWhitespace(c)
    requires IsTrimmed(b)
    ensures Strip(a + b + c) == b
  {
    var s := a + b + c;
    var lo, hi := |a|, |a| + |b|;
    forall p | 0 <= p < lo ensures IsWhitespace(s[p]) {
      assert s[p] == a[p];
    }
    forall p | hi <= p < |s| ensures IsWhitespace(s[p]) {
      assert s[p] == c[p - hi];
    }
    assert s[lo..hi] == b;
    if b == [] {
      SkipWhitespaceAt(s, 0, |s|);
      SkipWhitespaceBackAt(s, |s|, |s|, |s|);
    } else {
      assert s[lo] == b[0] && s[hi - 1] == b[|b| - 1];
      SkipWhitespaceAt(s, 0, lo);
      SkipWhitespaceBackAt(s, lo, |s|, hi);
    }
  }

  /** `strip()` is idempotent. */
  lemma StripIdempotent(s: string)
    ensures Strip(Strip(s)) == Strip(s)
  {
    var r := Strip(s);
    assert [] + r + [] == r;
    StripRemovesPadding([], r, []);
  }

  /** `s.strip()` is empty exactly when `s` is all whitespace (this covers the empty string). */
  lemma StripEmptyIffAllWhitespace(s: string)
    ensures Strip(s) == [] <==> AllWhitespace(s)
  {
    var i := SkipWhitespace(s, 0);
    var j := SkipWhitespaceBack(s, i, |s|);
    assert Strip(s) == s[i..j];
    if AllWhitespace(s) {
      assert i == |s|;
    }
  }

  /** `sep` occurs in `s` starting at index `i`. */
  predicate OccursAt(s: string, sep: string, i: int) {
    0 <= i && i + |sep| <= |s| && s[i..i + |sep|] == sep
  }

  /** An occurrence inside a slice is an occurrence in the whole text, and back. */
  lemma OccursInSlice(s: string, lo: int, hi: int, sep: string, j: int)
    requires 0 <= lo <= hi <= |s|
    ensures OccursAt(s[lo..hi], sep, j) <==> 0 <= j && j + |sep| <= hi - lo && OccursAt(s, sep, lo + j)
  {
    if 0 <= j && j + |sep| <= hi - lo {
      var a, b := s[lo..hi][j..j + |sep|], s[lo + j..lo + j + |sep|];
      assert |a| == |b|;
      forall t | 0 <= t < |a| ensures a[t] == b[t] {
        assert a[t] == s[lo..hi][j + t] == s[lo + j + t];
      }
      assert a == b;
    }
  }

  /** Character by character, an occurrence of `sep` at `i` repeats `sep`. */
  lemma OccursAtChars(s: string, sep: string, i: int)
    requires OccursAt(s, sep, i)
    ensures forall p | i <= p < i + |sep| :: s[p] == sep[p - i]
  {
    forall p | i <= p < i + |sep| ensures s[p] == sep[p - i] {
      assert s[p] == s[i..i + |sep|][p - i];
    }
  }

  /** `s.find(sep, start)`: the first index from `start` on at which `sep` occurs, if any. */
  function Find(s: string, sep: string, start: nat): (r: Option<nat>)
    ensures r.Some? ==> start <= r.value && r.value + |sep| <= |s|
    decreases |s| - start
  {
    if start + |sep| > |s| then
      None
    else if OccursAt(s, sep, start) then
      Some(start)
    else
      Find(s, sep, start + 1)
  }

  /**
   * The reference meaning of `s.find(sep, start)`: it finds an occurrence
   * with no occurrence between `start` and it, and finds nothing exactly
   * when `sep` occurs nowhere from `start` on.
   */
  lemma {:induction false} FindFirst(s: string, sep: string, start: nat)
    ensures Find(s, sep, start).Some? ==> OccursAt(s, sep, Find(s, sep, start).value)
    ensures Find(s, sep, start).Some? ==> forall j | start <= j < Find(s, sep, start).value :: !OccursAt(s, sep, j)
    ensures Find(s, sep, start).None? ==> forall j | start <= j :: !OccursAt(s, sep, j)
    decreases |s| - start
  {
    if start + |sep| <= |s| && !OccursAt(s, sep, start) {
      FindFirst(s, sep, start + 1);
    }
  }

  /** Python's `sep in s`. */
  predicate Contains(s: string, sep: string)
    ensures sep == [] ==> Contains(s, sep)
    ensures |s| < |sep| ==> !Contains(s, sep)
  {
    Find(s, sep, 0).Some?
  }

  /** `sep in s` holds exactly when `sep` occurs somewhere in `s`. */
  lemma ContainsIffOccurs(s: string, sep: string)
    ensures Contains(s, sep) <==> exists j :: OccursAt(s, sep, j)
  {
    FindFirst(s, sep, 0);
    if Contains(s, sep) {
      assert OccursAt(s, sep, Find(s, sep, 0).value);
    }
  }

  /** A slice in which no occurrence of `sep` fits does not contain `sep`. */
  lemma SliceAvoids(s: string, lo: int, hi: int, sep: string)
    requires 0 <= lo <= hi <= |s|
    requires forall j | lo <= j && j + |sep| <= hi :: !OccursAt(s, sep, j)
    ensures !Contains(s[lo..hi], sep)
  {
    FindFirst(s[lo..hi], sep, 0);
    forall j ensures !OccursAt(s[lo..hi], sep, j) {
      OccursInSlice(s, lo, hi, sep, j);
    }
  }

  /** A text without `sep` has no slice with `sep`. */
  lemma SliceKeepsAbsence(s: string, lo: int, hi: int, sep: string)
    requires 0 <= lo <= hi <= |s|
    requires !Contains(s, sep)
    ensures !Contains(s[lo..hi], sep)
  {
    FindFirst(s, sep, 0);
    SliceAvoids(s, lo, hi, sep);
  }

  /** `strip()` only removes characters, so it cannot create an occurrence of `sep`. */
  lemma StripKeepsAbsence(s: string, sep: string)
    requires !Contains(s, sep)
    ensures !Contains(Strip(s), sep)
  {
    var i := SkipWhitespace(s, 0);
    var j := SkipWhitespaceBack(s, i, |s|);
    SliceKeepsAbsence(s, i, j, sep);
  }

  /** `sep.join(parts)`. */
  function Join(parts: seq<string>, sep: string): string
    decreases |parts|
  {
    if parts == [] then ""
    else if |parts| == 1 then parts[0]
    else parts[0] + sep + Join(parts[1..], sep)
  }

  function Last<T>(xs: seq<T>): T
    requires |xs| > 0
  {
    xs[|xs| - 1]
  }

  /**
   * The pieces `s[start..].split(sep)` for a non-empty separator: cut at
   * each occurrence of `sep`, found left to right and not overlapping.
   */
  function SplitFrom(s: string, sep: string, start: nat): (parts: seq<string>)
    requires |sep| > 0 && start <= |s|
    ensures |parts| >= 1
    decreases |s| - start
  {
    match Find(s, sep, start)
    case None => [s[start..]]
    case Some(i) => [s[start..i]] + SplitFrom(s, sep, i + |sep|)
  }

  /** `s.split(sep)` for a non-empty separator; Python raises `ValueError` for an empty one. */
  function Split(s: string, sep: string): (parts: seq<string>)
    requires |sep| > 0
    ensures |parts| >= 1
  {
    SplitFrom(s, sep, 0)
  }

  /** `s.split(sep)` is the single piece `[s]` exactly when `sep` is not in `s`. */
  lemma SplitSinglePiece(s: string, sep: string)
    requires |sep| > 0
    ensures |Split(s, sep)| == 1 <==> !Contains(s, sep)
    ensures !Contains(s, sep) ==> Split(s, sep) == [s]
  {
    match Find(s, sep, 0)
    case None =>
      assert s[0..] == s;
    case Some(i) =>
      assert |SplitFrom(s, sep, 0)| == 1 + |SplitFrom(s, sep, i + |sep|)|;
  }

  /** Joining the pieces of `s[start..].split(sep)` with `sep` gives back `s[start..]`. */
  lemma {:induction false} SplitFromJoin(s: string, sep: string, start: nat)
    requires |sep| > 0 && start <= |s|
    ensures Join(SplitFrom(s, sep, start), sep) == s[start..]
    decreases |s| - start
  {
    match Find(s, sep, start)
    case None =>
    case Some(i) =>
      var parts := SplitFrom(s, sep, start);
      var rest := SplitFrom(s, sep, i + |sep|);
      assert parts[1..] == rest;
      SplitFromJoin(s, sep, i + |sep|);
      assert OccursAt(s, sep, i) by {
        FindFirst(s, sep, start);
      }
      assert s[start..] == s[start..i] + s[i..i + |sep|] + s[i + |sep|..];
  }

  /** Joining the pieces of `s.split(sep)` with `sep` gives back `s`. */
  lemma SplitJoinRoundTrip(s: string, sep: string)
    requires |sep| > 0
    ensures Join(Split(s, sep), sep) == s
  {
    SplitFromJoin(s, sep, 0);
  }

  /** No piece of `s[start..].split(sep)` contains `sep`. */
  lemma {:induction false} SplitFromPiecesAvoid(s: string, sep: string, start: nat)
    requires |sep| > 0 && start <= |s|
    ensures forall k | 0 <= k < |SplitFrom(s, sep, start)| :: !Contains(SplitFrom(s, sep, start)[k], sep)
    decreases |s| - start
  {
    FindFirst(s, sep, start);
    match Find(s, sep, start)
    case None =>
      SliceAvoids(s, start, |s|, sep);
      assert s[start..|s|] == s[start..];
    case Some(i) =>
      SliceAvoids(s, start, i, sep);
      SplitFromPiecesAvoid(s, sep, i + |sep|);
  }

  /** No piece of `s.split(sep)` contains `sep`. */
  lemma SplitPiecesAvoidSeparator(s: string, sep: string)
    requires |sep| > 0
    ensures forall k | 0 <= k < |Split(s, sep)| :: !Contains(Split(s, sep)[k], sep)
  {
    SplitFromPiecesAvoid(s, sep, 0);
  }

  /** Where the last piece of `s[start..].split(sep)` begins. */
  function LastCut(s: string, sep: string, start: nat): (c: nat)
    requires |sep| > 0 && start <= |s|
    ensures start <= c <= |s|
    decreases |s| - start
  {
    match Find(s, sep, start)
    case None => start
    case Some(i) => LastCut(s, sep, i + |sep|)
  }

  /** The last piece of `s[start..].split(sep)` runs from its cut to the end. */
  lemma {:induction false} LastPieceAtCut(s: string, sep: string, start: nat)
    requires |sep| > 0 && start <= |s|
    ensures Last(SplitFrom(s, sep, start)) == s[LastCut(s, sep, start)..]
    decreases |s| - start
  {
    match Find(s, sep, start)
    case None =>
    case Some(i) =>
      var rest := SplitFrom(s, sep, i + |sep|);
      assert SplitFrom(s, sep, start) == [s[start..i]] + rest;
      LastPieceAtCut(s, sep, i + |sep|);
  }

  /** `sep` occurs nowhere from the cut on. */
  lemma {:induction false} NothingFromCut(s: string, sep: string, start: nat)
    requires |sep| > 0 && start <= |s|
    ensures Find(s, sep, LastCut(s, sep, start)).None?
    decreases |s| - start
  {
    match Find(s, sep, start)
    case None =>
    case Some(i) =>
      NothingFromCut(s, sep, i + |sep|);
  }

  /** A cut after `start` comes right after an occurrence of `sep`. */
  lemma {:induction false} CutFollowsOccurrence(s: string, sep: string, start: nat)
    requires |sep| > 0 && start <= |s|
    ensures start < LastCut(s, sep, start) ==>
      start + |sep| <= LastCut(s, sep, start) && OccursAt(s, sep, LastCut(s, sep, start) - |sep|)
    decreases |s| - start
  {
    match Find(s, sep, start)
    case None =>
    case Some(i) =>
      var c := LastCut(s, sep, i + |sep|);
      assert LastCut(s, sep, start) == c;
      if c == i + |sep| {
        assert OccursAt(s, sep, i) by {
          FindFirst(s, sep, start);
        }
      } else {
        CutFollowsOccurrence(s, sep, i + |sep|);
      }
  }

  /**
   * The last piece of `s[start..].split(sep)` runs from its cut to the end;
   * `sep` occurs nowhere from the cut on; and a cut after `start` comes
   * right after an occurrence of `sep`.
   */
  lemma LastCutBounds(s: string, sep: string, start: nat)
    requires |sep| > 0 && start <= |s|
    ensures Last(SplitFrom(s, sep, start)) == s[LastCut(s, sep, start)..]
    ensures Find(s, sep, LastCut(s, sep, start)).None?
    ensures start < LastCut(s, sep, start) ==>
      start + |sep| <= LastCut(s, sep, start) && OccursAt(s, sep, LastCut(s, sep, start) - |sep|)
  {
    LastPieceAtCut(s, sep, start);
    NothingFromCut(s, sep, start);
    CutFollowsOccurrence(s, sep, start);
  }

  /**
   * `s.split(sep)[-1]` is the text after the occurrence of `sep` where the
   * left-to-right split cuts last, or all of `s` when `sep` does not occur:
   * with `c` where the last piece begins, `sep` occurs nowhere from `c` on,
   * and an occurrence ends right at `c` exactly when `sep` is in `s`. For a
   * separator that can overlap itself this need not be the last occurrence
   * (`"aaa".split("aa")` ends with `"a"`).
   */
  lemma SplitLastPiece(s: string, sep: string)
    requires |sep| > 0
    ensures var c := LastCut(s, sep, 0);
      && Last(Split(s, sep)) == s[c..]
      && (forall j | c <= j :: !OccursAt(s, sep, j))
      && (Contains(s, sep) ==> |sep| <= c && OccursAt(s, sep, c - |sep|))
      && (!Contains(s, sep) ==> c == 0)
  {
    var c := LastCut(s, sep, 0);
    LastCutBounds(s, sep, 0);
    FindFirst(s, sep, c);
    if Contains(s, sep) {
      assert 0 < c;
    }
  }
}
