/** C strings as NUL-free sequences of characters, and the library searches on them. */
module CStrings {
  import opened Bytes

  const NUL := '\0'

  predicate NoNul(s: string) {
    forall i :: 0 <= i < |s| ==> s[i] != NUL
  }

  lemma NoNulAppend(a: string, b: string)
    requires NoNul(a) && NoNul(b)
    ensures NoNul(a + b)
  {
  }

  /** What C sees of a character array: everything before the first NUL. */
  function CStr(s: string): (r: string)
    ensures NoNul(r) && |r| <= |s| && r == s[..|r|]
    ensures |r| < |s| ==> s[|r|] == NUL
    ensures NoNul(s) ==> r == s
  {
    if s == [] || s[0] == NUL then [] else [s[0]] + CStr(s[1..])
  }

  lemma {:induction false} CStrIs(s: string, n: nat)
    requires n <= |s| && NoNul(s[..n]) && (n < |s| ==> s[n] == NUL)
    ensures CStr(s) == s[..n]
    decreases n
  {
    if n > 0 {
      assert s[..n][0] == s[0] && s[1..][..n - 1] == s[..n][1..];
      CStrIs(s[1..], n - 1);
      assert s[..n] == [s[0]] + s[1..][..n - 1];
    }
  }

  predicate OccursAt(s: string, pat: string, k: nat) {
    k + |pat| <= |s| && s[k..k + |pat|] == pat
  }

  lemma SliceOfSlice(s: string, from: nat, to: nat, i: nat, j: nat)
    requires i <= j && from + j <= to <= |s|
    ensures s[from..to][i..j] == s[from + i..from + j]
  {
    var a, b := s[from..to][i..j], s[from + i..from + j];
    assert |a| == |b| && forall k :: 0 <= k < |a| ==> a[k] == b[k];
  }

  lemma SliceLacks(m: string, from: nat, to: nat, c: char)
    requires from <= to <= |m| && c !in m[from..to]
    ensures forall j :: from <= j < to ==> m[j] != c
  {
    forall j | from <= j < to ensures m[j] != c {
      assert m[j] == m[from..to][j - from];
    }
  }

  /** strstr, searching from position `from`. */
  function StrStr(s: string, pat: string, from: nat): (r: Option<nat>)
    ensures r.Some? ==> from <= r.value && OccursAt(s, pat, r.value)
    ensures r.Some? ==> forall j :: from <= j < r.value ==> !OccursAt(s, pat, j)
    ensures r.None? ==> forall j :: from <= j ==> !OccursAt(s, pat, j)
    decreases |s| - from
  {
    if from + |pat| > |s| then None
    else if OccursAt(s, pat, from) then Some(from)
    else StrStr(s, pat, from + 1)
  }

  /** A search result is determined by what it says. */
  lemma StrStrIs(s: string, pat: string, from: nat, k: nat)
    requires from <= k && OccursAt(s, pat, k)
    requires forall j :: from <= j < k ==> !OccursAt(s, pat, j)
    ensures StrStr(s, pat, from) == Some(k)
  {
  }

  /** In a prefix the same occurrence is found, once the prefix holds all of it. */
  lemma StrStrInPrefix(s: string, pat: string, from: nat, c: nat)
    requires c <= |s|
    ensures var r := StrStr(s, pat, from);
            StrStr(s[..c], pat, from) == if r.Some? && r.value + |pat| <= c then r else None
  {
    var r, p := StrStr(s, pat, from), StrStr(s[..c], pat, from);
    forall j: nat | j + |pat| <= c ensures OccursAt(s[..c], pat, j) <==> OccursAt(s, pat, j) {
      assert s[..c][j..j + |pat|] == s[j..j + |pat|];
    }
    if r.Some? && r.value + |pat| <= c {
      StrStrIs(s[..c], pat, from, r.value);
    }
  }

  /** strchr, searching from position `from`. */
  function StrChr(s: string, c: char, from: nat): (r: Option<nat>)
    ensures r.Some? ==> from <= r.value < |s| && s[r.value] == c
    ensures r.Some? ==> forall j :: from <= j < r.value ==> s[j] != c
    ensures r.None? ==> forall j :: from <= j < |s| ==> s[j] != c
    decreases |s| - from
  {
    if from >= |s| then None else if s[from] == c then Some(from) else StrChr(s, c, from + 1)
  }
}
