/** Sequences of bytes and the two scans every parser of the
    repository is built from: "first occurrence of a pattern" and "first byte that
    satisfies a predicate". */
module Text {

  datatype Option<+T> = None | Some(value: T)

  /** `pat` occurs in `s` at index `i`. */
  predicate OccursAt<T(==)>(s: seq<T>, pat: seq<T>, i: nat) {
    i + |pat| <= |s| && s[i..i + |pat|] == pat
  }

  /** Neither of two separators occurs. */
  predicate FreeOf<T(==)>(s: seq<T>, a: T, b: T) {
    forall i :: 0 <= i < |s| ==> s[i] != a && s[i] != b
  }

  lemma OccursAtByte<T>(s: seq<T>, pat: seq<T>, i: nat, k: nat)
    requires k < |pat|
    ensures OccursAt(s, pat, i) ==> s[i + k] == pat[k]
  {
    if OccursAt(s, pat, i) {
      assert s[i..i + |pat|][k] == s[i + k];
    }
  }

  /** The text so far grows by one element. */
  lemma AppendOne<T>(done: seq<T>, c: T, rest: seq<T>)
    ensures done + ([c] + rest) == (done + [c]) + rest
  {
  }

  /** The first byte that stops a scan comes right behind a stretch without one. */
  lemma {:induction false} ScanBehind(a: string, b: string, stop: char -> bool)
    requires forall i :: 0 <= i < |a| ==> !stop(a[i])
    requires b != "" ==> stop(b[0])
    ensures Scan(a + b, 0, stop) == |a|
  {
    ScanIs(a + b, 0, stop, |a|);
  }

  /** A slice of a suffix. */
  lemma SliceInSuffix<T>(s: seq<T>, p: nat, a: nat, b: nat)
    requires p + a <= p + b <= |s|
    ensures s[p..][a..b] == s[p + a..p + b] && s[p..][a..] == s[p + a..]
  {
  }

  lemma OccursInSuffix<T>(s: seq<T>, pat: seq<T>, p: nat, i: nat)
    requires p <= |s|
    ensures OccursAt(s[p..], pat, i) <==> OccursAt(s, pat, p + i)
    ensures OccursAt(s, pat, p + i) ==> p + i + |pat| <= |s|
  {
    if p + i + |pat| <= |s| {
      SliceInSuffix(s, p, i, i + |pat|);
    }
  }

  predicate NoneIn<T(==)>(s: seq<T>, pat: seq<T>, lo: nat, hi: nat) {
    forall i: nat :: lo <= i < hi ==> !OccursAt(s, pat, i)
  }

  /** The reference search: the least index at or after `from` where `pat` occurs. */
  function Find<T(==)>(s: seq<T>, pat: seq<T>, from: nat): (r: Option<nat>)
    requires from <= |s|
    ensures r.Some? ==> from <= r.value && r.value + |pat| <= |s|
    decreases |s| - from
  {
    if OccursAt(s, pat, from) then Some(from)
    else if from == |s| then None
    else Find(s, pat, from + 1)
  }

  /** What `Find` returns is an occurrence with none before it, and `None` means
      that there is no occurrence at all. */
  lemma {:induction false} FindIsFirst<T>(s: seq<T>, pat: seq<T>, from: nat)
    requires from <= |s|
    ensures match Find(s, pat, from)
            case None => NoneIn(s, pat, from, |s| + 1)
            case Some(k) => OccursAt(s, pat, k) && NoneIn(s, pat, from, k)
    decreases |s| - from
  {
    if !OccursAt(s, pat, from) && from < |s| {
      FindIsFirst(s, pat, from + 1);
    }
  }

  /** An occurrence with none before it is what `Find` returns. */
  lemma {:induction false} FindIs<T>(s: seq<T>, pat: seq<T>, from: nat, k: nat)
    requires from <= k <= |s|
    requires OccursAt(s, pat, k) && NoneIn(s, pat, from, k)
    ensures Find(s, pat, from) == Some(k)
    decreases k - from
  {
    if from < k {
      assert !OccursAt(s, pat, from);
      FindIs(s, pat, from + 1, k);
    }
  }

  /** A stretch without occurrences can be skipped. */
  lemma {:induction false} FindSkips<T>(s: seq<T>, pat: seq<T>, from: nat, k: nat)
    requires from <= k <= |s|
    requires NoneIn(s, pat, from, k)
    ensures Find(s, pat, from) == Find(s, pat, k)
    decreases k - from
  {
    if from < k {
      assert !OccursAt(s, pat, from);
      FindSkips(s, pat, from + 1, k);
    }
  }

  /** Where `s` and `t` agree far enough, `pat` occurs in both or in neither. */
  lemma OccursInBoth<T>(s: seq<T>, t: seq<T>, pat: seq<T>, i: nat)
    requires i + |pat| <= |s| <= |t| && s == t[..|s|]
    ensures OccursAt(s, pat, i) <==> OccursAt(t, pat, i)
  {
    assert s[i..i + |pat|] == t[i..i + |pat|];
  }

  /** Adding text at the end does not move a first occurrence. */
  lemma {:induction false} FindInLonger<T>(s: seq<T>, more: seq<T>, pat: seq<T>, k: nat)
    requires Find(s, pat, 0) == Some(k)
    ensures Find(s + more, pat, 0) == Some(k)
  {
    hide Find, OccursAt;
    FindIsFirst(s, pat, 0);
    forall i: nat | i <= k ensures OccursAt(s + more, pat, i) == OccursAt(s, pat, i) {
      OccursInBoth(s, s + more, pat, i);
    }
    FindIs(s + more, pat, 0, k);
  }

  /** A first occurrence is also the first in the text cut right behind it. */
  lemma {:induction false} FindInShorter<T>(s: seq<T>, pat: seq<T>, k: nat)
    requires Find(s, pat, 0) == Some(k)
    ensures s[..k + |pat|] == s[..k] + pat && Find(s[..k] + pat, pat, 0) == Some(k)
  {
    FindIsFirst(s, pat, 0);
    var t := s[..k + |pat|];
    assert t == s[..k] + pat;
    hide Find, OccursAt;
    forall i: nat | i <= k ensures OccursAt(t, pat, i) == OccursAt(s, pat, i) {
      OccursInBoth(t, s, pat, i);
    }
    FindIs(t, pat, 0, k);
  }

  /** What comes before a first occurrence holds none. */
  lemma {:induction false} NoneBefore<T>(s: seq<T>, pat: seq<T>)
    requires pat != [] && Find(s + pat, pat, 0) == Some(|s|)
    ensures Find(s, pat, 0).None?
  {
    hide Find;
    FindIsFirst(s + pat, pat, 0);
    FindIsFirst(s, pat, 0);
    if Find(s, pat, 0).Some? {
      OccursInBoth(s, s + pat, pat, Find(s, pat, 0).value);
    }
  }

  /** Searching from `from` is searching the suffix and shifting the answer. */
  lemma {:induction false} FindInSuffix<T>(s: seq<T>, pat: seq<T>, from: nat, p: nat)
    requires p <= from <= |s|
    ensures Find(s, pat, from)
         == match Find(s[p..], pat, from - p)
            case None => None
            case Some(i) => Some(p + i)
    decreases |s| - from
  {
    if from + |pat| <= |s| {
      assert s[p..][from - p..from - p + |pat|] == s[from..from + |pat|];
    }
    if !OccursAt(s, pat, from) && from < |s| {
      FindInSuffix(s, pat, from + 1, p);
    }
  }

  /** The index of the first byte at or after `p` that satisfies `stop`, or the length. */
  function Scan(s: string, p: nat, stop: char -> bool): (r: nat)
    requires p <= |s|
    ensures p <= r <= |s|
    decreases |s| - p
  {
    if p == |s| || stop(s[p]) then p else Scan(s, p + 1, stop)
  }

  /** An index with no stopping byte before it, and one at it unless it is the length,
      is what `Scan` returns. */
  lemma {:induction false} ScanIs(s: string, p: nat, stop: char -> bool, r: nat)
    requires p <= r <= |s|
    requires forall i :: p <= i < r ==> !stop(s[i])
    requires r < |s| ==> stop(s[r])
    ensures Scan(s, p, stop) == r
    decreases r - p
  {
    if p < r {
      ScanIs(s, p + 1, stop, r);
    }
  }

  lemma {:induction false} ScanIsFirst(s: string, p: nat, stop: char -> bool)
    requires p <= |s|
    ensures var r := Scan(s, p, stop);
            (forall i :: p <= i < r ==> !stop(s[i])) && (r < |s| ==> stop(s[r]))
    decreases |s| - p
  {
    if p < |s| && !stop(s[p]) {
      ScanIsFirst(s, p + 1, stop);
    }
  }

  /** The library's own search loop over `[from, |s|)`. */
  method Search<T(==)>(s: seq<T>, from: nat, pat: seq<T>) returns (r: Option<nat>)
    requires from <= |s|
    requires |pat| > 0
    ensures r == Find(s, pat, from)
  {
    if |s| - from < |pat| {
      FindIsFirst(s, pat, from);
      return None;
    }
    var last := |s| - |pat| + 1;
    var p := from;
    while p < last
      invariant from <= p <= last
      invariant Find(s, pat, from) == Find(s, pat, p)
    {
      assert s[p..p + |pat|][0] == s[p];
      if s[p] == pat[0] && s[p..p + |pat|] == pat {
        return Some(p);
      }
      p := p + 1;
    }
    FindIsFirst(s, pat, p);
    return None;
  }

  // Buffers

  /** Copies `text` into `buf` at `at` and returns the cursor behind it. */
  method Put(buf: array<char>, at: nat, text: string) returns (next: nat)
    requires at + |text| <= buf.Length
    modifies buf
    ensures next == at + |text| && buf[..next] == old(buf[..at]) + text
    ensures forall i :: next <= i < buf.Length ==> buf[i] == old(buf[i])
  {
    next := at;
    for i := 0 to |text|
      invariant next == at + i && buf[..next] == old(buf[..at]) + text[..i]
      invariant forall k :: next <= k < buf.Length ==> buf[k] == old(buf[k])
    {
      buf[next] := text[i];
      next := next + 1;
    }
  }
}
