/** String primitives of the C++ standard library that the server and both
    clients lean on: std::string::find, find_last_of, a prefix test, and the
    index-advancing "skip while" scans.  A `string` here is a sequence of
    chars, each char standing for one byte of a std::string. */
module Text {

  datatype Option<T> = None | Some(value: T)

  function Min(a: int, b: int): int { if a <= b then a else b }

  /** `pat` occurs in `s` starting at index `i`. */
  predicate OccursAt(s: string, pat: string, i: nat)
  {
    i + |pat| <= |s| && s[i..i + |pat|] == pat
  }

  /** std::string::find(pat, from): the first index at or after `from`
      where `pat` occurs, or None for std::string::npos. */
  function Find(s: string, pat: string, from: nat): (r: Option<int>)
    ensures r.Some? ==> from <= r.value && OccursAt(s, pat, r.value)
    decreases |s| + 1 - from
  {
    if from + |pat| > |s| then None
    else if s[from..from + |pat|] == pat then Some(from)
    else Find(s, pat, from + 1)
  }

  /** The occurrence Find reports is the first: none starts earlier, and
      when it reports none there is none at all. */
  lemma {:induction false} FindIsFirst(s: string, pat: string, from: nat)
    ensures forall j: nat :: from <= j && (Find(s, pat, from).Some? ==> j < Find(s, pat, from).value)
              ==> !OccursAt(s, pat, j)
    decreases |s| + 1 - from
  {
    if from + |pat| <= |s| && s[from..from + |pat|] != pat {
      FindIsFirst(s, pat, from + 1);
    }
  }

  /** `pat` occurs somewhere in `s`. */
  predicate Contains(s: string, pat: string)
  {
    Find(s, pat, 0).Some?
  }

  /** Regrouping a concatenation, stated once so that proofs about long
      concatenations can take it in one step. */
  lemma Assoc<T>(a: seq<T>, b: seq<T>, c: seq<T>)
    ensures a + b + c == a + (b + c)
  {
  }

  /** A slice that lies within the front part of a concatenation. */
  lemma SliceInFront(a: string, b: string, i: nat, j: nat)
    requires i <= j <= |a|
    ensures (a + b)[i..j] == a[i..j]
  {
  }

  /** What follows a cut inside the back part of a concatenation. */
  lemma OccursBehind(a: string, b: string, pat: string, k: nat)
    ensures OccursAt(a + b, pat, |a| + k) == OccursAt(b, pat, k)
  {
    if |a| + k + |pat| <= |a + b| {
      assert (a + b)[|a| + k..|a| + k + |pat|] == b[k..k + |pat|];
    }
  }

  lemma DropFront(a: string, b: string, n: nat)
    requires |a| <= n <= |a| + |b|
    ensures (a + b)[n..] == b[n - |a|..]
  {
  }

  lemma DropPrefix(a: string, b: string)
    ensures (a + b)[|a|..] == b
  {
  }

  lemma SliceOfSlice(s: string, q: nat, k: nat)
    requires q + k <= |s|
    ensures s[q..][k..] == s[q + k..]
  {
  }

  lemma TakeMore(s: string, i: nat, j: nat)
    requires i <= j <= |s|
    ensures s[..i] + s[i..j] == s[..j]
  {
  }

  lemma TakeDrop(s: string, k: nat)
    requires k <= |s|
    ensures s[..k] + s[k..] == s
  {
  }

  /** The prefix test the sources write as `s.rfind(p, 0) == 0`. */
  predicate StartsWith(s: string, p: string)
  {
    |p| <= |s| && s[..|p|] == p
  }

  /** `s` ends with `p`. */
  predicate EndsWith(s: string, p: string)
  {
    |p| <= |s| && s[|s| - |p|..] == p
  }

  /** The first occurrence is determined by the two facts that define it. */
  lemma FindUnique(s: string, pat: string, from: nat, i: nat)
    requires from <= i && OccursAt(s, pat, i)
    requires forall j: nat :: from <= j < i ==> !OccursAt(s, pat, j)
    ensures Find(s, pat, from) == Some(i)
  {
    FindIsFirst(s, pat, from);
  }

  /** Any occurrence means Find finds one, at that index or before. */
  lemma OccurrenceFound(s: string, pat: string, i: nat)
    requires OccursAt(s, pat, i)
    ensures Contains(s, pat) && Find(s, pat, 0).value <= i
  {
    FindIsFirst(s, pat, 0);
  }

  /** Appending text after an occurrence does not move the first occurrence. */
  lemma FindInPrefix(a: string, b: string, pat: string, from: nat)
    requires Find(a, pat, from).Some?
    ensures Find(a + b, pat, from) == Find(a, pat, from)
  {
    var i := Find(a, pat, from).value;
    FindIsFirst(a, pat, from);
    assert (a + b)[i..i + |pat|] == a[i..i + |pat|];
    forall j: nat | from <= j < i
      ensures !OccursAt(a + b, pat, j)
    {
      assert !OccursAt(a, pat, j);
      assert (a + b)[j..j + |pat|] == a[j..j + |pat|];
    }
    FindUnique(a + b, pat, from, i);
  }

  /** An occurrence that lies wholly inside the front part is an occurrence
      in the front part. */
  lemma OccursInFront(a: string, b: string, pat: string, i: nat)
    requires OccursAt(a + b, pat, i)
    ensures i + |pat| <= |a| ==> OccursAt(a, pat, i)
  {
    if i + |pat| <= |a| {
      assert a[i..i + |pat|] == (a + b)[i..i + |pat|];
    }
  }

  /** Text that holds no occurrence keeps holding none when cut short. */
  lemma NotFoundInPrefix(s: string, pat: string, k: nat)
    requires k <= |s| && !Contains(s, pat)
    ensures !Contains(s[..k], pat)
  {
    FindIsFirst(s, pat, 0);
    forall i: nat | OccursAt(s[..k], pat, i)
      ensures OccursAt(s, pat, i)
    {
      assert s[..k][i..i + |pat|] == s[i..i + |pat|];
    }
  }

  /** An occurrence at `p` is the first one at or after `from` when one
      character of the pattern, the one at offset `m`, appears nowhere in the
      stretch an earlier occurrence would have to cover. */
  lemma FindByMarker(s: string, pat: string, from: nat, p: nat, m: nat)
    requires from <= p && m < |pat| && OccursAt(s, pat, p)
    requires pat[m] !in s[from + m..p + m]
    ensures Find(s, pat, from) == Some(p)
  {
    forall j: nat | from <= j < p
      ensures !OccursAt(s, pat, j)
    {
      assert s[from + m..p + m][j - from] == s[j + m];
      assert j + |pat| <= |s| ==> s[j..j + |pat|][m] == s[j + m];
    }
    FindUnique(s, pat, from, p);
  }

  /** The index where a scan that advances past every character satisfying
      `p` stops: the shape of the sources' "skip spaces" loops. */
  function SkipWhile(s: string, k: nat, p: char -> bool): (j: nat)
    requires k <= |s|
    ensures k <= j <= |s|
    ensures forall i :: k <= i < j ==> p(s[i])
    ensures j == |s| || !p(s[j])
    decreases |s| - k
  {
    if k < |s| && p(s[k]) then SkipWhile(s, k + 1, p) else k
  }

  /** The stopping index is determined by the two facts that define it. */
  lemma SkipWhileUnique(s: string, k: nat, j: nat, p: char -> bool)
    requires k <= j <= |s|
    requires forall i :: k <= i < j ==> p(s[i])
    requires j == |s| || !p(s[j])
    ensures SkipWhile(s, k, p) == j
  {
  }

  /** std::string::find_last_of(cs): the last index holding one of `cs`. */
  function LastIndexIn(s: string, cs: set<char>): (r: Option<nat>)
    ensures r.Some? ==> r.value < |s| && s[r.value] in cs
    ensures r.Some? ==> forall j :: r.value < j < |s| ==> s[j] !in cs
    ensures r.None? ==> forall j :: 0 <= j < |s| ==> s[j] !in cs
  {
    if s == [] then None
    else if s[|s| - 1] in cs then Some(|s| - 1)
    else LastIndexIn(s[..|s| - 1], cs)
  }

  /** The last index is determined by the two facts that define it. */
  lemma LastIndexInUnique(s: string, cs: set<char>, r: Option<nat>)
    requires r.Some? ==> r.value < |s| && s[r.value] in cs
    requires r.Some? ==> forall j :: r.value < j < |s| ==> s[j] !in cs
    requires r.None? ==> forall j :: 0 <= j < |s| ==> s[j] !in cs
    ensures LastIndexIn(s, cs) == r
  {
  }

  /** A space or a tab: what the sources' skip and trim loops step over. */
  predicate IsBlank(c: char)
  {
    c == ' ' || c == '\t'
  }

  predicate AllBlank(s: string)
  {
    forall i :: 0 <= i < |s| ==> IsBlank(s[i])
  }

  /** ::tolower in the "C" locale: only A-Z change. */
  function ToLowerAscii(c: char): char
  {
    if 'A' <= c <= 'Z' then (c as int + 32) as char else c
  }

  /** std::transform(..., ::tolower) over a whole string. */
  function Lower(s: string): (r: string)
    ensures |r| == |s| && forall i :: 0 <= i < |s| ==> r[i] == ToLowerAscii(s[i])
  {
    seq(|s|, i requires 0 <= i < |s| => ToLowerAscii(s[i]))
  }
}
