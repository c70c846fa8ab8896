/**
 * The three pieces of Python string behaviour the view relies on:
 * `str.strip()`, the substring test `d in s`, and `s.split(d, 1)`,
 * which cuts at the first occurrence of `d`.
 */
module Text {
  import opened Wrappers

  /** The code points for which Python's `str.isspace()` holds. */
  predicate IsSpace(c: char) {
    ('\t' <= c <= '\r') || ('\U{1C}' <= c <= ' ')
    || c == '\U{85}' || c == '\U{A0}' || c == '\U{1680}'
    || ('\U{2000}' <= c <= '\U{200A}') || c == '\U{2028}' || c == '\U{2029}'
    || c == '\U{202F}' || c == '\U{205F}' || c == '\U{3000}'
  }

  predicate OnlySpace(s: string) {
    forall k :: 0 <= k < |s| ==> IsSpace(s[k])
  }

  /** Neither end of `s` is whitespace: what `strip()` leaves. */
  predicate NoEdgeSpace(s: string) {
    s == [] || (!IsSpace(s[0]) && !IsSpace(s[|s| - 1]))
  }

  /** Where the leading whitespace of `s[i..]` ends: the index `lstrip()` cuts at. */
  function SkipSpace(s: string, i: nat): (k: nat)
    requires i <= |s|
    ensures i <= k <= |s| && (k == |s| || !IsSpace(s[k]))
    ensures forall n :: i <= n < k ==> IsSpace(s[n])
    decreases |s| - i
  {
    if i < |s| && IsSpace(s[i]) then SkipSpace(s, i + 1) else i
  }

  /** Where the trailing whitespace of `s[lo..j]` starts: the index `rstrip()` cuts at. */
  function BackSpace(s: string, lo: nat, j: nat): (k: nat)
    requires lo <= j <= |s|
    ensures lo <= k <= j && (k == lo || !IsSpace(s[k - 1]))
    ensures forall n :: k <= n < j ==> IsSpace(s[n])
    decreases j
  {
    if lo < j && IsSpace(s[j - 1]) then BackSpace(s, lo, j - 1) else j
  }

  /** Python's `str.strip()`. */
  function Strip(s: string): (r: string)
    ensures NoEdgeSpace(r) && |r| <= |s|
  {
    var a := SkipSpace(s, 0);
    s[a..BackSpace(s, a, |s|)]
  }

  /**
   * `strip()` keeps a window of `s`: what it cuts from either end is
   * whitespace, and the window's ends are not.
   */
  lemma StripIsWindow(s: string)
    ensures exists i :: 0 <= i <= |s| - |Strip(s)| && Strip(s) == s[i..i + |Strip(s)|]
                        && OnlySpace(s[..i]) && OnlySpace(s[i + |Strip(s)|..])
  {
    var a := SkipSpace(s, 0);
    var b := BackSpace(s, a, |s|);
    assert Strip(s) == s[a..a + |Strip(s)|];
    assert OnlySpace(s[..a]) by {
      forall n | 0 <= n < a ensures IsSpace(s[..a][n]) {
        assert s[..a][n] == s[n];
      }
    }
    assert OnlySpace(s[b..]) by {
      forall n | 0 <= n < |s| - b ensures IsSpace(s[b..][n]) {
        assert s[b..][n] == s[b + n];
      }
    }
  }

  /** Stripping a string that has no whitespace at either end changes nothing. */
  lemma StripKeeps(s: string)
    requires NoEdgeSpace(s)
    ensures Strip(s) == s
  {
  }

  /** `strip()` is idempotent. */
  lemma StripIdempotent(s: string)
    ensures Strip(Strip(s)) == Strip(s)
  {
    StripKeeps(Strip(s));
  }

  /** `d` occurs in `s` starting at index `i`. */
  predicate OccursAt(s: string, d: string, i: int) {
    0 <= i && i + |d| <= |s| && s[i..i + |d|] == d
  }

  /** Python's `d in s`. */
  predicate Contains(s: string, d: string) {
    exists i :: 0 <= i <= |s| - |d| && OccursAt(s, d, i)
  }

  /** `i` is where `d` first occurs in `s`. */
  predicate FirstOccurrence(s: string, d: string, i: int) {
    OccursAt(s, d, i) && forall k :: 0 <= k < i ==> !OccursAt(s, d, k)
  }

  /** The first index at or after `from` where `d` occurs in `s`. */
  function FindFrom(s: string, d: string, from: nat): (r: Option<nat>)
    requires from <= |s|
    ensures r.Some? ==> from <= r.value && r.value + |d| <= |s|
    decreases |s| - from
  {
    if from + |d| > |s| then None
    else if s[from..from + |d|] == d then Some(from)
    else FindFrom(s, d, from + 1)
  }

  /** What `FindFrom` finds is an occurrence with none before it; `None` means there is none. */
  lemma {:induction false} FindFromFindsFirst(s: string, d: string, from: nat)
    requires from <= |s|
    ensures var r := FindFrom(s, d, from);
      (r.Some? ==> OccursAt(s, d, r.value) && forall k :: from <= k < r.value ==> !OccursAt(s, d, k))
      && (r.None? ==> forall k :: from <= k ==> !OccursAt(s, d, k))
    decreases |s| - from
  {
    if from + |d| <= |s| && s[from..from + |d|] != d {
      FindFromFindsFirst(s, d, from + 1);
    }
  }

  /** The index `s.split(d, 1)` cuts at, or `None` when `d in s` is false. */
  function FindFirst(s: string, d: string): (r: Option<nat>)
    ensures r.Some? ==> r.value + |d| <= |s|
  {
    FindFrom(s, d, 0)
  }

  /** `FindFirst` finds something exactly when `d in s`, and then the first occurrence. */
  lemma FindFirstFindsFirst(s: string, d: string)
    ensures FindFirst(s, d).Some? <==> Contains(s, d)
    ensures FindFirst(s, d).Some? ==> FirstOccurrence(s, d, FindFirst(s, d).value)
  {
    FindFromFindsFirst(s, d, 0);
  }

  /** `FindFirst` finds exactly the first occurrence. */
  lemma FindFirstIsFirst(s: string, d: string, i: int)
    requires FirstOccurrence(s, d, i)
    ensures FindFirst(s, d) == Some(i)
  {
    FindFirstFindsFirst(s, d);
    assert Contains(s, d);
  }

  /** An occurrence past the cut point of a suffix is an occurrence in that suffix. */
  lemma OccursInSuffix(s: string, d: string, j: int, m: int)
    requires OccursAt(s, d, j) && 0 <= m <= j
    ensures OccursAt(s[m..], d, j - m)
  {
    assert s[m..][j - m..j - m + |d|] == s[j..j + |d|];
  }

  /** Joining pieces whose ends are not whitespace keeps the ends free of it. */
  lemma JoinNoEdgeSpace(t: string, d: string, c: string)
    requires NoEdgeSpace(t) && NoEdgeSpace(c) && d != [] && NoEdgeSpace(d)
    ensures NoEdgeSpace(t + d + c)
  {
    var s := t + d + c;
    assert s[0] == if t != [] then t[0] else d[0];
    assert s[|s| - 1] == if c != [] then c[|c| - 1] else d[|d| - 1];
  }

  /**
   * In `t + d + c`, the `d` placed after `t` is the first occurrence unless
   * `t` followed by all but the last character of `d` already holds one.
   */
  lemma JoinFirstOccurrence(t: string, d: string, c: string)
    requires d != [] && !Contains(t + d[..|d| - 1], d)
    ensures FirstOccurrence(t + d + c, d, |t|)
    ensures (t + d + c)[..|t|] == t && (t + d + c)[|t| + |d|..] == c
  {
    var s := t + d + c;
    var head := t + d[..|d| - 1];
    assert s[|t|..|t| + |d|] == d;
    forall k | 0 <= k < |t|
      ensures !OccursAt(s, d, k)
    {
      forall n | k <= n < k + |d| ensures s[n] == head[n] {
        if n < |t| {
          assert s[n] == t[n] && head[n] == t[n];
        } else {
          assert s[n] == d[n - |t|] && head[n] == d[n - |t|];
        }
      }
      assert s[k..k + |d|] == head[k..k + |d|];
      assert !OccursAt(head, d, k);
    }
  }

  /** A window of a window is the window of the whole, shifted by where the outer one starts. */
  lemma SliceOfSlice(s: string, a: int, b: int, x: int, y: int)
    requires 0 <= a <= x <= y <= b <= |s|
    ensures s[a..b][x - a..y - a] == s[x..y]
  {
    var w := s[a..b][x - a..y - a];
    forall i | 0 <= i < y - x ensures w[i] == s[x..y][i] {
      assert w[i] == s[a..b][x - a + i] == s[x + i];
    }
  }

  /** An occurrence of `d` whose ends are not whitespace survives `strip()`, shifted to `k`. */
  lemma StripKeepsOccurrence(s: string, d: string, j: int) returns (k: int)
    requires OccursAt(s, d, j) && d != [] && NoEdgeSpace(d)
    ensures OccursAt(Strip(s), d, k)
  {
    var a := SkipSpace(s, 0);
    var b := BackSpace(s, a, |s|);
    assert s[j..j + |d|][0] == s[j];
    assert s[j..j + |d|][|d| - 1] == s[j + |d| - 1];
    assert a <= j;
    assert j + |d| <= b;
    SliceOfSlice(s, a, b, j, j + |d|);
    k := j - a;
  }

  /** An occurrence past the cut point survives stripping the suffix that follows the cut. */
  lemma StrippedSuffixKeepsOccurrence(s: string, d: string, m: int, j: int) returns (k: int)
    requires OccursAt(s, d, j) && 0 <= m <= j && d != [] && NoEdgeSpace(d)
    ensures OccursAt(Strip(s[m..]), d, k)
  {
    OccursInSuffix(s, d, j, m);
    k := StripKeepsOccurrence(s[m..], d, j - m);
  }
}
