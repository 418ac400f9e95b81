/**
  The two C library searches the symbol-line parser relies on:
  `strstr` (first occurrence of a substring) and `strchr` (first
  occurrence of a character, a one-character `strstr`).  Both search
  from a position `from` in the string, which is how the source calls
  them on a pointer into the middle of a line.
 */
module CStrings {

  import opened Wrappers

  /** `pat` occurs in `s` at position `i`. */
  ghost predicate OccursAt(s: string, pat: string, i: int)
  {
    0 <= i && i + |pat| <= |s| && s[i..i + |pat|] == pat
  }

  /** `i` is the first position at or after `from` where `pat` occurs. */
  ghost predicate FirstAt(s: string, pat: string, from: int, i: int)
  {
    from <= i && OccursAt(s, pat, i) &&
    forall j :: from <= j < i ==> !OccursAt(s, pat, j)
  }

  /** `pat` occurs nowhere at or after `from`. */
  ghost predicate Absent(s: string, pat: string, from: int)
  {
    forall j :: from <= j ==> !OccursAt(s, pat, j)
  }

  /** `strstr(s + from, pat)`, as an index into `s`. */
  function Find(s: string, pat: string, from: nat): (r: Option<nat>)
    requires from <= |s|
    ensures r.Some? ==> from <= r.value && r.value + |pat| <= |s|
    decreases |s| - from
  {
    if from + |pat| > |s| then
      None
    else if s[from..from + |pat|] == pat then
      Some(from)
    else
      Find(s, pat, from + 1)
  }

  /**
    `Find` returns the first occurrence at or after `from`, and `None`
    exactly when there is none.
   */
  lemma {:induction false} FindIsFirst(s: string, pat: string, from: nat)
    requires from <= |s|
    ensures Find(s, pat, from).Some? ==> FirstAt(s, pat, from, Find(s, pat, from).value)
    ensures Find(s, pat, from).None? ==> Absent(s, pat, from)
    decreases |s| - from
  {
    if from + |pat| <= |s| && s[from..from + |pat|] != pat {
      FindIsFirst(s, pat, from + 1);
    }
  }
}
