/**
 * Substring search and deletion on command strings.  Rust's `str::find`
 * returns the byte offset of the leftmost match; because UTF-8 is
 * self-synchronising, a match of a valid needle always starts on a character
 * boundary, so searching a sequence of characters finds the same match.
 */
module Text {
  import opened Wrappers

  /** `t` occurs in `s` at offset `i`. */
  predicate MatchesAt(s: string, t: string, i: nat)
  {
    i + |t| <= |s| && s[i..i + |t|] == t
  }

  /** `t` occurs somewhere in `s`. */
  ghost predicate Contains(s: string, t: string)
  {
    exists i: nat :: MatchesAt(s, t, i)
  }

  /** `i` is the leftmost offset at which `t` occurs in `s`. */
  ghost predicate IsFirstMatch(s: string, t: string, i: nat)
  {
    MatchesAt(s, t, i) && forall j: nat :: j < i ==> !MatchesAt(s, t, j)
  }

  lemma {:induction false} FirstMatchUnique(s: string, t: string, i: nat, j: nat)
    requires IsFirstMatch(s, t, i) && IsFirstMatch(s, t, j)
    ensures i == j
  {
  }

  /** The leftmost occurrence of `t` in `s`, as `str::find` reports it. */
  function Find(s: string, t: string): (r: Option<nat>)
    ensures r.Some? <==> Contains(s, t)
    ensures r.Some? ==> IsFirstMatch(s, t, r.value)
  {
    FindFrom(s, t, 0)
  }

  /** Search from offset `from`, knowing that no earlier offset matches. */
  function FindFrom(s: string, t: string, from: nat): (r: Option<nat>)
    requires from <= |s|
    requires forall j: nat :: j < from ==> !MatchesAt(s, t, j)
    ensures r.Some? ==> IsFirstMatch(s, t, r.value)
    ensures r.None? ==> !Contains(s, t)
    decreases |s| - from
  {
    if from + |t| > |s| then None
    else if s[from..from + |t|] == t then Some(from)
    else FindFrom(s, t, from + 1)
  }

  /**
   * Remove the leftmost occurrence of `t` from `s`, or leave `s` alone when
   * there is none (`replace_range(start..start + len, "")`).
   */
  function DeleteFirst(s: string, t: string): (r: string)
    ensures !Contains(s, t) ==> r == s
    ensures Contains(s, t) ==> |r| == |s| - |t|
  {
    match Find(s, t)
    case None => s
    case Some(k) => s[..k] + s[k + |t|..]
  }

  /**
   * Deleting at the leftmost match `k` cuts exactly `s[k..k + |t|]`, and
   * putting `t` back at `k` restores the original string.
   */
  lemma {:induction false} DeleteFirstAt(s: string, t: string, k: nat)
    requires IsFirstMatch(s, t, k)
    ensures DeleteFirst(s, t) == s[..k] + s[k + |t|..]
    ensures DeleteFirst(s, t)[..k] + t + DeleteFirst(s, t)[k..] == s
  {
    var f := Find(s, t);
    FirstMatchUnique(s, t, f.value, k);
    var r := s[..k] + s[k + |t|..];
    assert r[..k] == s[..k];
    assert r[k..] == s[k + |t|..];
    assert s == s[..k] + s[k..k + |t|] + s[k + |t|..];
  }
}
