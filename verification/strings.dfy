/** The C string primitives the driver relies on: `strstr` (also with the
    one-character needles `"?"` and `"*"`), NUL termination, and reading one
    character of a zero-initialised buffer.

    The searches carry only the bounds their callers need to slice; which
    occurrence they find is stated by the lemmas that follow each of them. */
module Strings {
  import opened Wrappers

  const NUL: char := '\0'

  /** `pat` occurs in `s` starting at index `i`. */
  predicate MatchAt(s: string, pat: string, i: nat) {
    i + |pat| <= |s| && s[i..i + |pat|] == pat
  }

  /** First occurrence of `pat` in `s` at or after `i`. */
  function FindFrom(s: string, pat: string, i: nat): (r: Option<nat>)
    requires i <= |s|
    ensures r.Some? ==> i <= r.value && r.value + |pat| <= |s|
    decreases |s| - i
  {
    if MatchAt(s, pat, i) then Some(i)
    else if i == |s| then None
    else FindFrom(s, pat, i + 1)
  }

  /** `strstr`: the index of the first occurrence of `pat` in `s`. */
  function Find(s: string, pat: string): (r: Option<nat>)
    ensures r.Some? ==> r.value + |pat| <= |s|
  {
    FindFrom(s, pat, 0)
  }

  /** What `FindFrom` finds: a match, and no earlier one at or after `i`. */
  lemma {:induction false} FindFromFirst(s: string, pat: string, i: nat)
    requires i <= |s|
    ensures var r := FindFrom(s, pat, i);
            (r.Some? ==> MatchAt(s, pat, r.value) && forall j :: i <= j < r.value ==> !MatchAt(s, pat, j)) &&
            (r.None? ==> forall j :: i <= j <= |s| ==> !MatchAt(s, pat, j))
    decreases |s| - i
  {
    if !MatchAt(s, pat, i) && i < |s| {
      FindFromFirst(s, pat, i + 1);
    }
  }

  /** What `Find` finds: the first match, or none when there is no match. */
  lemma FindFirst(s: string, pat: string)
    ensures var r := Find(s, pat);
            (r.Some? ==> MatchAt(s, pat, r.value) && forall j :: 0 <= j < r.value ==> !MatchAt(s, pat, j)) &&
            (r.None? ==> forall j :: 0 <= j <= |s| ==> !MatchAt(s, pat, j))
  {
    FindFromFirst(s, pat, 0);
  }

  /** A match at `k` with none before it is what `Find` reports. */
  lemma FindFirstMatch(s: string, pat: string, k: nat)
    requires MatchAt(s, pat, k)
    requires forall j :: 0 <= j < k ==> !MatchAt(s, pat, j)
    ensures Find(s, pat) == Some(k)
  {
    FindFirst(s, pat);
  }

  /** Without any match `Find` reports none. */
  lemma FindNone(s: string, pat: string)
    requires forall j :: 0 <= j <= |s| ==> !MatchAt(s, pat, j)
    ensures Find(s, pat) == None
  {
    FindFirst(s, pat);
  }

  /** `c` does not occur in `s`. */
  predicate Free(s: string, c: char) {
    forall i :: 0 <= i < |s| ==> s[i] != c
  }

  /** First occurrence of `c` in `s` at or after `i`. */
  function FindCharFrom(s: string, c: char, i: nat): (r: Option<nat>)
    requires i <= |s|
    ensures r.Some? ==> i <= r.value < |s| && s[r.value] == c
    decreases |s| - i
  {
    if i == |s| then None
    else if s[i] == c then Some(i)
    else FindCharFrom(s, c, i + 1)
  }

  /** The index of the first occurrence of `c` in `s`: `strstr` with a
      one-character needle, as `FindSingle` shows. */
  function FindChar(s: string, c: char): (r: Option<nat>)
    ensures r.Some? ==> r.value < |s| && s[r.value] == c
  {
    FindCharFrom(s, c, 0)
  }

  /** What `FindCharFrom` finds: no earlier occurrence at or after `i`. */
  lemma {:induction false} FindCharFromFirst(s: string, c: char, i: nat)
    requires i <= |s|
    ensures var r := FindCharFrom(s, c, i);
            (r.Some? ==> forall j :: i <= j < r.value ==> s[j] != c) &&
            (r.None? ==> forall j :: i <= j < |s| ==> s[j] != c)
    decreases |s| - i
  {
    if i < |s| && s[i] != c {
      FindCharFromFirst(s, c, i + 1);
    }
  }

  /** What `FindChar` finds: the first occurrence, or none when `c` is absent. */
  lemma FindCharFirst(s: string, c: char)
    ensures var r := FindChar(s, c);
            (r.Some? ==> Free(s[..r.value], c)) && (r.None? ==> Free(s, c))
  {
    FindCharFromFirst(s, c, 0);
  }

  /** `FindChar` is determined by the position of the first occurrence. */
  lemma FindCharAt(s: string, c: char, k: nat)
    requires k < |s| && s[k] == c && Free(s[..k], c)
    ensures FindChar(s, c) == Some(k)
  {
    FindCharFirst(s, c);
  }

  /** `strstr` with the needle `[c]` finds what `FindChar` finds. */
  lemma FindSingle(s: string, c: char)
    ensures Find(s, [c]) == FindChar(s, c)
  {
    FindFirst(s, [c]);
    FindCharFirst(s, c);
    forall j | 0 <= j <= |s| ensures MatchAt(s, [c], j) <==> j < |s| && s[j] == c {
      if j < |s| { assert s[j..j + 1] == [s[j]]; }
    }
    match FindChar(s, c)
    case Some(k) =>
      forall j | 0 <= j < k ensures !MatchAt(s, [c], j) { assert s[..k][j] == s[j]; }
      FindFirstMatch(s, [c], k);
    case None =>
      FindNone(s, [c]);
  }

  /** A character absent from a string is absent from its prefixes. */
  lemma FreePrefix(s: string, t: string, c: char)
    requires s <= t && Free(t, c)
    ensures Free(s, c)
  {
  }

  /** A match inside a prefix is a match in the whole string. */
  lemma MatchPrefix(s: string, t: string, pat: string, j: nat)
    requires s <= t && MatchAt(s, pat, j)
    ensures MatchAt(t, pat, j)
  {
    assert t[j..j + |pat|] == s[j..j + |pat|];
  }

  /** A character that does not occur is not found. */
  lemma FindCharNone(s: string, c: char)
    requires Free(s, c)
    ensures FindChar(s, c) == None
  {
  }

  /** When the first character of `pat` does not occur in `s[..k]` and `pat`
      matches at `k`, then `k` is the first occurrence. */
  lemma FindAt(s: string, pat: string, k: nat)
    requires |pat| > 0 && MatchAt(s, pat, k)
    requires forall j :: 0 <= j < k ==> s[j] != pat[0]
    ensures Find(s, pat) == Some(k)
  {
    forall j | 0 <= j < k ensures !MatchAt(s, pat, j) {
      if j + |pat| <= |s| {
        assert s[j..j + |pat|][0] == s[j];
      }
    }
    FindFirstMatch(s, pat, k);
  }

  /** When the first character of `pat` does not occur in `s`, `pat` is not found. */
  lemma FindAbsent(s: string, pat: string)
    requires |pat| > 0 && Free(s, pat[0])
    ensures Find(s, pat) == None
  {
    forall j | 0 <= j <= |s| ensures !MatchAt(s, pat, j) {
      if j + |pat| <= |s| {
        assert s[j..j + |pat|][0] == s[j];
      }
    }
    FindNone(s, pat);
  }

  /** The contents of a zero-initialised C buffer into which `raw` was read:
      everything before the first NUL. */
  function CString(raw: string): (c: string)
    ensures |c| <= |raw|
  {
    match FindChar(raw, NUL)
    case Some(k) => raw[..k]
    case None => raw
  }

  /** The C string is the longest NUL-free prefix of the buffer. */
  lemma CStringPrefix(raw: string)
    ensures var c := CString(raw);
            c == raw[..|c|] && Free(c, NUL) && (|c| < |raw| ==> raw[|c|] == NUL)
  {
    FindCharFirst(raw, NUL);
  }

  /** A string without NUL is its own C string. */
  lemma CStringOfFree(raw: string)
    requires Free(raw, NUL)
    ensures CString(raw) == raw
  {
    FindCharNone(raw, NUL);
  }

  /** A zero-initialised buffer of `n` characters after the C string `s`
      was copied into it. */
  function ZeroBuffer(s: string, n: nat): (b: string)
    requires |s| <= n
  {
    s + seq(n - |s|, _ => NUL)
  }

  /** Reading offset `i` of a zero-initialised buffer holding the C string `s`:
      whatever the size of the buffer, the character found there is the one
      read. */
  function CharAt(s: string, i: nat): (c: char)
    ensures forall n: nat :: |s| <= n && i < n ==> c == ZeroBuffer(s, n)[i]
  {
    if i < |s| then s[i] else NUL
  }
}
