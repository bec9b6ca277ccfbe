/** The walk and the removal in terms of devices, inode numbers and names: which entries are
    visited, and when a tree can be removed. */
module TreeConditions {
  import opened FileSystem
  import opened TreeWalk
  import opened TreeVisits
  import opened TreeRemoval

  /** The path string of an entry `names` below the directory `s`. */
  function StringAt(s: string, names: Path): string {
    if names == [] then s else Join(StringAt(s, names[..|names| - 1]), names[|names| - 1])
  }

  function Parent(q: Path): Path
    requires |q| > 0
  {
    q[..|q| - 1]
  }

  /** The walk from `p` may enter `q`: it is on the device of its parent if that is asked, and
      no directory on the way from `p` is the same file. */
  ghost predicate Admitted(env: Env, fs: Files, p: Path, q: Path)
    requires Closed(fs) && q in fs && p <= q
  {
    |p| < |q| ==>
      && (env.mount ==> Parent(q) in fs && fs[q].dev == fs[Parent(q)].dev)
      && forall k :: |p| <= k < |q| && q[..k] in fs ==>
           !(fs[q[..k]].dev == fs[q].dev && fs[q[..k]].ino == fs[q].ino)
  }

  /** `q` is visited by a walk from `s`: it is at most `limit` levels below, every entry on the
      way is admitted, and every directory on the way can be listed. */
  ghost predicate Reachable(env: Env, fs: Files, s: string, limit: nat, q: Path)
    requires Closed(fs)
  {
    var p := env.resolve(s);
    && s != "" && p <= q && q in fs && |q| - |p| <= limit
    && forall k :: |p| <= k <= |q| ==> OnTheWay(env, fs, p, q, k)
  }

  ghost predicate OnTheWay(env: Env, fs: Files, p: Path, q: Path, k: nat)
    requires Closed(fs) && |p| <= k <= |q| && p <= q
  {
    && q[..k] in fs && Admitted(env, fs, p, q[..k])
    && (k < |q| ==> fs[q[..k]].kind == Dir && fs[q[..k]].opening == Opens)
  }

  /** Nothing about `q` itself stands in the way of removing it: it may be removed, the walk may
      enter it, and a directory can be listed or is known to be empty. */
  ghost predicate IsSound(env: Env, fs: Files, p: Path, q: Path)
    requires Closed(fs) && q in fs && p <= q
  {
    && fs[q].removable && Admitted(env, fs, p, q)
    && if fs[q].kind == Dir && fs[q].opening != Denied then fs[q].opening == Opens else !HasChild(fs, q)
  }

  /** `q` is not too deep below `p` and its path is not too long. */
  ghost predicate IsNear(s: string, p: Path, limit: nat, q: Path)
    requires p < q
  {
    |q| - |p| <= limit && |q[|q| - 1]| + |StringAt(s, Parent(q)[|p|..])| < MAX_PATH
  }

  /** The tree at `s` can be removed by a walk of this depth. */
  ghost predicate IsClean(env: Env, fs: Files, s: string, limit: nat)
    requires Closed(fs)
  {
    var p := env.resolve(s);
    && s != "" && p in fs
    && forall q :: q in fs && p <= q ==> IsSound(env, fs, p, q) && (p != q ==> IsNear(s, p, limit, q))
  }

  // The directories a walk is inside of

  function TraceOf(fs: Files, q: Path): Trace {
    if q in fs then Trace(fs[q].dev, fs[q].ino) else Trace(0, 0)
  }

  /** The directories from the parent of `q` up to `p`. */
  function Parents(fs: Files, p: Path, q: Path): seq<Trace> {
    if |q| <= |p| then [] else [TraceOf(fs, Parent(q))] + Parents(fs, p, Parent(q))
  }

  lemma {:induction false} ParentsAre(fs: Files, p: Path, q: Path, t: Trace)
    requires p <= q
    ensures t in Parents(fs, p, q) <==> exists k :: |p| <= k < |q| && t == TraceOf(fs, q[..k])
    decreases |q|
  {
    hide TraceOf;
    if |p| < |q| {
      var r := Parent(q);
      ParentsAre(fs, p, r, t);
      assert forall k :: |p| <= k <= |r| ==> r[..k] == q[..k];
      assert Parents(fs, p, q) == [TraceOf(fs, q[..|q| - 1])] + Parents(fs, p, r);
    }
  }

  lemma {:induction false} WayExists(fs: Files, q: Path, k: nat)
    requires Closed(fs) && q in fs && k <= |q|
    ensures q[..k] in fs
  {
    AncestorsExist(fs, q[..k], q);
  }

  lemma {:induction false} SkippedIff(env: Env, fs: Files, p: Path, q: Path)
    requires Closed(fs) && q in fs && p <= q
    ensures Skipped(env, fs[q], Parents(fs, p, q)) <==> !Admitted(env, fs, p, q)
  {
    hide Closed;
    var t := Trace(fs[q].dev, fs[q].ino);
    ParentsAre(fs, p, q, t);
    forall k | |p| <= k < |q|
      ensures q[..k] in fs && (t == TraceOf(fs, q[..k]) <==> fs[q[..k]].dev == fs[q].dev && fs[q[..k]].ino == fs[q].ino)
    {
      WayExists(fs, q, k);
    }
    if |p| < |q| {
      assert Parents(fs, p, q)[0] == TraceOf(fs, Parent(q)) && Parent(q) == q[..|q| - 1];
    }
  }

  lemma {:induction false} StringResolves(env: Env, fs: Files, s: string, q: Path)
    requires LegalEnv(env) && s != "" && WellNamed(fs) && q in fs && env.resolve(s) <= q
    ensures StringAt(s, q[|env.resolve(s)|..]) != ""
    ensures env.resolve(StringAt(s, q[|env.resolve(s)|..])) == q
  {
    var p := env.resolve(s);
    NamesResolve(env, s, q[|p|..]) by {
      assert forall i :: 0 <= i < |q| - |p| ==> q[|p|..][i] == q[|p| + i];
    }
    assert p + q[|p|..] == q;
  }

  lemma {:induction false} NamesResolve(env: Env, s: string, names: Path)
    requires LegalEnv(env) && s != "" && forall i :: 0 <= i < |names| ==> IsName(names[i])
    ensures StringAt(s, names) != "" && env.resolve(StringAt(s, names)) == env.resolve(s) + names
  {
    hide LegalEnv, IsName;
    if names == [] {
      assert env.resolve(s) + names == env.resolve(s);
    } else {
      var init, last := names[..|names| - 1], names[|names| - 1];
      NamesResolve(env, s, init);
      JoinResolves(env, StringAt(s, init), last);
      assert env.resolve(s) + init + [last] == env.resolve(s) + names;
    }
  }

  /** One level further down. */
  lemma {:induction false} ChildAt(fs: Files, s: string, p: Path, q: Path, n: string)
    requires p <= q && q in fs
    ensures var c := q + [n];
            && StringAt(s, c[|p|..]) == Join(StringAt(s, q[|p|..]), n)
            && Parents(fs, p, c) == [Trace(fs[q].dev, fs[q].ino)] + Parents(fs, p, q)
            && Parent(c) == q && c[|c| - 1] == n
  {
    var c := q + [n];
    assert c[..|c| - 1] == q;
    assert c[|p|..] == q[|p|..] + [n];
    assert (q[|p|..] + [n])[..|q[|p|..]|] == q[|p|..];
  }

  // What is visited

  /** The way from `r` on down to `q`. */
  ghost predicate WayFrom(env: Env, fs: Files, p: Path, r: Path, limit: nat, q: Path)
    requires Closed(fs)
  {
    && p <= r <= q && q in fs && |q| - |p| <= limit
    && forall k :: |r| <= k <= |q| ==> OnTheWay(env, fs, p, q, k)
  }

  lemma {:induction false} WayStep(env: Env, fs: Files, p: Path, r: Path, limit: nat, q: Path)
    requires Closed(fs) && p <= r && r in fs && |r| - |p| <= limit
    ensures WayFrom(env, fs, p, r, limit, q) <==>
            && Admitted(env, fs, p, r)
            && (|| q == r
                || (&& fs[r].kind == Dir && fs[r].opening == Opens && |r| - |p| < limit
                    && r < q && WayFrom(env, fs, p, q[..|r| + 1], limit, q)))
  {
    hide Closed, Admitted;
    if r <= q {
      assert q[..|r|] == r;
      assert r == q ==> q[..|q|] == q;
      if WayFrom(env, fs, p, r, limit, q) {
        assert OnTheWay(env, fs, p, q, |r|);
      }
    }
  }

  lemma {:induction false} ReachFrom(env: Env, fs: Files, s: string, limit: nat, r: Path, q: Path)
    requires LegalEnv(env) && Closed(fs) && WellNamed(fs) && s != ""
    requires env.resolve(s) <= r && r in fs && |r| - |env.resolve(s)| <= limit
    ensures var p := env.resolve(s);
            InReach(env, fs, StringAt(s, r[|p|..]), limit - (|r| - |p|), Parents(fs, p, r), q)
            <==> WayFrom(env, fs, p, r, limit, q)
    decreases limit - (|r| - |env.resolve(s)|)
  {
    hide LegalEnv, Closed, WellNamed, Admitted, Skipped, Join, Parents, StringAt, WayFrom, IsName;
    var p := env.resolve(s);
    StringResolves(env, fs, s, r);
    SkippedIff(env, fs, p, r);
    WayStep(env, fs, p, r, limit, q);
    if |r| - |p| < limit {
      forall n | IsName(n) && r + [n] in fs
        ensures InReach(env, fs, Join(StringAt(s, r[|p|..]), n), limit - (|r| - |p|) - 1,
                        [Trace(fs[r].dev, fs[r].ino)] + Parents(fs, p, r), q)
           <==> WayFrom(env, fs, p, r + [n], limit, q)
      {
        ChildAt(fs, s, p, r, n);
        ReachFrom(env, fs, s, limit, r + [n], q);
      }
      NextOnTheWay(env, fs, p, r, limit, q);
    }
  }

  /** The next entry on the way is a named child. */
  lemma {:induction false} NextOnTheWay(env: Env, fs: Files, p: Path, r: Path, limit: nat, q: Path)
    requires Closed(fs) && WellNamed(fs) && p <= r
    ensures (r < q && WayFrom(env, fs, p, q[..|r| + 1], limit, q))
       <==> exists n :: IsName(n) && r + [n] in fs && WayFrom(env, fs, p, r + [n], limit, q)
  {
    hide IsName, Admitted;
    if r < q && WayFrom(env, fs, p, q[..|r| + 1], limit, q) {
      var n := q[|r|];
      assert r + [n] == q[..|r| + 1] && OnTheWay(env, fs, p, q, |r| + 1);
      assert (r + [n])[|r|] == n;
    }
    if n :| IsName(n) && r + [n] in fs && WayFrom(env, fs, p, r + [n], limit, q) {
      assert q[..|r| + 1] == r + [n];
    }
  }

  /** What is in reach of a walk, entry by entry. */
  lemma {:induction false} ReachableIff(env: Env, fs: Files, s: string, limit: nat, q: Path)
    requires LegalEnv(env) && Closed(fs) && WellNamed(fs)
    ensures InReach(env, fs, s, limit, [], q) <==> Reachable(env, fs, s, limit, q)
  {
    hide LegalEnv, Closed, WellNamed, OnTheWay, Skipped;
    var p := env.resolve(s);
    if s != "" && p in fs {
      assert p[|p|..] == [];
      ReachFrom(env, fs, s, limit, p, q);
      hide InReach;
    } else if s != "" && Reachable(env, fs, s, limit, q) {
      AncestorsExist(fs, p, q);
    }
  }

  /** The walk visits only reachable entries, and all of them when it succeeds. */
  lemma {:induction false} WalkVisits(env: Env, fs: Files, s: string, limit: nat, q: Path)
    requires Local(env) && Closed(fs) && WellNamed(fs)
    ensures var r := Walk(env, fs, s, limit, []);
            && (q in r.visited ==> Reachable(env, fs, s, limit, q))
            && (r.ok && Reachable(env, fs, s, limit, q) ==> q in r.visited)
  {
    hide Walk, InReach, Reachable, LegalEnv, Closed, WellNamed;
    VisitIsLocal(env, fs, []);
    WalkVisitsIff(env, fs, s, limit, [], q);
    ReachableIff(env, fs, s, limit, q);
  }

  // When a walk succeeds

  /** Visiting an entry changes nothing and never fails. */
  ghost predicate Looks(env: Env) {
    LegalEnv(env) && env.depth && forall fs, p :: env.visit(fs, p) == (fs, true)
  }

  /** The walk can deal with `q`: a directory can be opened and listed, unless opening is denied,
      and its entries have paths that are not too long. */
  ghost predicate IsPassable(fs: Files, s: string, p: Path, q: Path)
    requires p <= q && q in fs
  {
    fs[q].kind == Dir && fs[q].opening != Denied ==>
      && fs[q].opening == Opens
      && forall n :: IsName(n) && q + [n] in fs ==> |n| + |StringAt(s, q[|p|..])| < MAX_PATH
  }

  ghost predicate PassableFrom(env: Env, fs: Files, s: string, p: Path, limit: nat, r: Path)
    requires Closed(fs)
  {
    forall q :: WayFrom(env, fs, p, r, limit, q) ==> IsPassable(fs, s, p, q)
  }

  ghost predicate NameOk(env: Env, fs: Files, t: string, n: string, limit: nat, parents: seq<Trace>) {
    |n| + |t| < MAX_PATH && (limit > 0 ==> Walk(env, fs, Join(t, n), limit - 1, parents).ok)
  }

  lemma {:induction false} LooksKeeps(env: Env, fs: Files, t: string, limit: nat, parents: seq<Trace>)
    requires Looks(env)
    ensures Walk(env, fs, t, limit, parents).fs == fs
    decreases limit, 1, 0
  {
    hide Skipped, Entries;
    var p := env.resolve(t);
    if t != "" && p in fs && fs[p].kind == Dir && fs[p].opening == Opens {
      EntriesOkIff(env, fs, t, env.readdir(fs, p), limit, [Trace(fs[p].dev, fs[p].ino)] + parents);
    }
  }

  lemma {:induction false} EntriesOkIff(env: Env, fs: Files, t: string, names: seq<string>, limit: nat,
                                        parents: seq<Trace>)
    requires Looks(env)
    ensures var r := Entries(env, fs, t, names, limit, parents);
            r.fs == fs && (r.ok <==> forall n :: n in names && !IsDot(n) ==> NameOk(env, fs, t, n, limit, parents))
    decreases limit, 0, |names|
  {
    hide Walk, Looks, Join;
    if names != [] {
      var n, rest := names[0], names[1..];
      assert names == [n] + rest && n in names;
      if limit > 0 && !IsDot(n) {
        LooksKeeps(env, fs, Join(t, n), limit - 1, parents);
      }
      EntriesOkIff(env, fs, t, rest, limit, parents);
    }
  }

  lemma {:induction false} WalkFromOk(env: Env, fs: Files, s: string, limit: nat, r: Path)
    requires Looks(env) && Closed(fs) && WellNamed(fs) && s != ""
    requires env.resolve(s) <= r && r in fs && |r| - |env.resolve(s)| <= limit
    ensures var p := env.resolve(s);
            Walk(env, fs, StringAt(s, r[|p|..]), limit - (|r| - |p|), Parents(fs, p, r)).ok
            <==> PassableFrom(env, fs, s, p, limit, r)
    decreases limit - (|r| - |env.resolve(s)|)
  {
    hide LegalEnv, Closed, WellNamed, Admitted, Skipped, Join, Parents, StringAt, WayFrom, IsName, Entries;
    var p := env.resolve(s);
    var t, l := StringAt(s, r[|p|..]), limit - (|r| - |p|);
    var names, traces := env.readdir(fs, r), [Trace(fs[r].dev, fs[r].ino)] + Parents(fs, p, r);
    StringResolves(env, fs, s, r);
    SkippedIff(env, fs, p, r);
    Listing(env, fs, r);
    EntriesOkIff(env, fs, t, names, l, traces);
    PassableStep(env, fs, s, p, limit, r);
    forall n | IsName(n) && r + [n] in fs
      ensures NameOk(env, fs, t, n, l, traces)
         <==> |n| + |t| < MAX_PATH && (|r| - |p| < limit ==> PassableFrom(env, fs, s, p, limit, r + [n]))
    {
      if |r| - |p| < limit {
        ChildAt(fs, s, p, r, n);
        WalkFromOk(env, fs, s, limit, r + [n]);
      }
    }
    hide PassableFrom, NameOk;
    NamesAndDots(names, fs, r);
  }

  lemma NamesAndDots(names: seq<string>, fs: Files, r: Path)
    requires LegalNames(names) && forall n :: IsName(n) ==> (n in names <==> r + [n] in fs)
    ensures forall n :: n in names && !IsDot(n) <==> IsName(n) && r + [n] in fs
  {
  }

  lemma {:induction false} PassableStep(env: Env, fs: Files, s: string, p: Path, limit: nat, r: Path)
    requires Closed(fs) && WellNamed(fs) && p <= r && r in fs && |r| - |p| <= limit
    ensures PassableFrom(env, fs, s, p, limit, r) <==>
            (Admitted(env, fs, p, r) ==>
               && IsPassable(fs, s, p, r)
               && (fs[r].kind == Dir && fs[r].opening == Opens && |r| - |p| < limit ==>
                     forall n :: IsName(n) && r + [n] in fs ==> PassableFrom(env, fs, s, p, limit, r + [n])))
  {
    hide Closed, WellNamed, Admitted, WayFrom, IsPassable, IsName;
    forall q ensures
      WayFrom(env, fs, p, r, limit, q) <==>
        && Admitted(env, fs, p, r)
        && (q == r || (&& fs[r].kind == Dir && fs[r].opening == Opens && |r| - |p| < limit
                       && exists n :: IsName(n) && r + [n] in fs && WayFrom(env, fs, p, r + [n], limit, q)))
    {
      WayStep(env, fs, p, r, limit, q);
      NextOnTheWay(env, fs, p, r, limit, q);
    }
  }

  /** A walk that only looks succeeds exactly when its root exists and it can deal with every
      entry it reaches; what is too deep or not admitted is passed over. */
  lemma {:induction false} WalkSucceedsIff(env: Env, fs: Files, s: string, limit: nat)
    requires Looks(env) && Closed(fs) && WellNamed(fs)
    ensures Walk(env, fs, s, limit, []).ok <==>
            && s != "" && env.resolve(s) in fs
            && forall q :: Reachable(env, fs, s, limit, q) ==> IsPassable(fs, s, env.resolve(s), q)
  {
    hide Looks, Closed, WellNamed, OnTheWay, IsPassable, Enter, Skipped;
    var p := env.resolve(s);
    if s != "" && p in fs {
      assert p[|p|..] == [];
      WalkFromOk(env, fs, s, limit, p);
      hide Walk;
      forall q ensures WayFrom(env, fs, p, p, limit, q) <==> Reachable(env, fs, s, limit, q) {
      }
    }
  }

  // What can be removed

  ghost predicate SoundBelow(env: Env, fs: Files, s: string, p: Path, limit: nat, r: Path)
    requires Closed(fs) && p <= r
  {
    forall q :: q in fs && r <= q ==> IsSound(env, fs, p, q) && (r != q ==> IsNear(s, p, limit, q))
  }

  ghost predicate ChildrenSound(env: Env, fs: Files, s: string, p: Path, limit: nat, r: Path)
    requires Closed(fs) && p <= r
  {
    forall n :: IsName(n) && r + [n] in fs ==>
      IsNear(s, p, limit, r + [n]) && SoundBelow(env, fs, s, p, limit, r + [n])
  }

  /** A tree is sound when its root is and the trees of the children are, with the children near
      enough. */
  lemma {:induction false} SoundStep(env: Env, fs: Files, s: string, p: Path, limit: nat, r: Path)
    requires Closed(fs) && WellNamed(fs) && p <= r && r in fs
    ensures SoundBelow(env, fs, s, p, limit, r) <==>
            IsSound(env, fs, p, r) && ChildrenSound(env, fs, s, p, limit, r)
  {
    hide IsName, IsSound, IsNear, Closed, WellNamed;
    if SoundBelow(env, fs, s, p, limit, r) {
      forall n | IsName(n) && r + [n] in fs
        ensures IsNear(s, p, limit, r + [n]) && SoundBelow(env, fs, s, p, limit, r + [n])
      {
        assert r <= r + [n] && r != r + [n];
      }
    }
    if IsSound(env, fs, p, r) && ChildrenSound(env, fs, s, p, limit, r) {
      forall q | q in fs && r <= q ensures IsSound(env, fs, p, q) && (r != q ==> IsNear(s, p, limit, q)) {
        if r != q {
          SoundInChild(env, fs, s, p, limit, r, q);
        }
      }
    }
  }

  lemma {:induction false} SoundInChild(env: Env, fs: Files, s: string, p: Path, limit: nat, r: Path, q: Path)
    requires Closed(fs) && WellNamed(fs) && p <= r && ChildrenSound(env, fs, s, p, limit, r)
    requires q in fs && r < q
    ensures IsSound(env, fs, p, q) && IsNear(s, p, limit, q)
  {
    hide IsName, IsSound, IsNear, Closed;
    var n, c := q[|r|], q[..|r| + 1];
    assert c == r + [n] && IsName(n);
    WayExists(fs, q, |r| + 1);
  }

  lemma {:induction false} RemovableFrom(env: Env, fs: Files, s: string, limit: nat, r: Path)
    requires LegalEnv(env) && Closed(fs) && WellNamed(fs) && s != ""
    requires env.resolve(s) <= r && r in fs && |r| - |env.resolve(s)| <= limit
    ensures var p := env.resolve(s);
            Removable(env, fs, StringAt(s, r[|p|..]), limit - (|r| - |p|), Parents(fs, p, r))
            <==> SoundBelow(env, fs, s, p, limit, r)
    decreases limit - (|r| - |env.resolve(s)|)
  {
    hide LegalEnv, Closed, WellNamed, Admitted, Skipped, Parents, StringAt, SoundBelow, IsName, HasChild, ChildRemovable,
         IsNear;
    var p := env.resolve(s);
    var t, l, traces := StringAt(s, r[|p|..]), limit - (|r| - |p|), [Trace(fs[r].dev, fs[r].ino)] + Parents(fs, p, r);
    StringResolves(env, fs, s, r);
    SkippedIff(env, fs, p, r);
    SoundStep(env, fs, s, p, limit, r);
    forall n | IsName(n) && r + [n] in fs
      ensures ChildRemovable(env, fs, t, n, l, traces)
         <==> IsNear(s, p, limit, r + [n]) && SoundBelow(env, fs, s, p, limit, r + [n])
    {
      ChildFrom(env, fs, s, limit, r, n);
    }
    NoChildNoName(fs, r);
  }

  lemma {:induction false} NoChildNoName(fs: Files, r: Path)
    ensures forall n :: r + [n] in fs ==> HasChild(fs, r)
  {
    forall n | r + [n] in fs ensures HasChild(fs, r) {
      assert IsChild(r, r + [n]);
    }
  }

  lemma {:induction false} ChildFrom(env: Env, fs: Files, s: string, limit: nat, r: Path, n: string)
    requires LegalEnv(env) && Closed(fs) && WellNamed(fs) && s != "" && IsName(n)
    requires env.resolve(s) <= r && r in fs && r + [n] in fs && |r| - |env.resolve(s)| <= limit
    ensures var p := env.resolve(s);
            ChildRemovable(env, fs, StringAt(s, r[|p|..]), n, limit - (|r| - |p|),
                           [Trace(fs[r].dev, fs[r].ino)] + Parents(fs, p, r))
            <==> IsNear(s, p, limit, r + [n]) && SoundBelow(env, fs, s, p, limit, r + [n])
    decreases limit - (|r| - |env.resolve(s)|), 0
  {
    hide LegalEnv, Closed, WellNamed, Parents, StringAt, SoundBelow, IsName, Removable, Join;
    var p := env.resolve(s);
    ChildAt(fs, s, p, r, n);
    if |r| - |p| < limit {
      RemovableFrom(env, fs, s, limit, r + [n]);
    }
  }

  /** The tree at `s` can be removed exactly when every entry of it is sound and near. */
  lemma {:induction false} CleanIff(env: Env, fs: Files, s: string, limit: nat)
    requires LegalEnv(env) && Closed(fs) && WellNamed(fs)
    ensures Removable(env, fs, s, limit, []) <==> IsClean(env, fs, s, limit)
  {
    var p := env.resolve(s);
    if s != "" && p in fs {
      hide LegalEnv, Closed, WellNamed, IsSound, IsNear, Removable;
      assert p[|p|..] == [];
      RemovableFrom(env, fs, s, limit, p);
    }
  }

  /** Recursive removal of a directory that is not empty succeeds exactly when the tree is clean
      down to sixteen levels. */
  lemma {:induction false} RemovedIffClean(env: Env, fs: Files, s: string)
    requires Removes(env) && Closed(fs) && WellNamed(fs)
    requires Rmdir(fs, env.resolve(s)).1 == NotEmpty && |s| <= MAX_PATH
    ensures RemoveTree(env, fs, s, true).1 <==> IsClean(env, fs, s, 16)
  {
    hide RemoveTree, Rmdir, IsClean, Removable, LegalEnv, Closed, WellNamed;
    RemovalSucceedsIff(env, fs, s);
    CleanIff(env, fs, s, 16);
  }

  /** An ordinary tree, on one device, of removable entries and readable directories, without a
      directory that is its own ancestor, at most sixteen deep and with paths that fit, is
      removed completely. */
  lemma {:induction false} OrdinaryTreeIsRemoved(env: Env, fs: Files, s: string)
    requires Removes(env) && Closed(fs) && WellNamed(fs)
    requires Rmdir(fs, env.resolve(s)).1 == NotEmpty && s != "" && |s| <= MAX_PATH
    requires forall q :: q in fs && env.resolve(s) <= q ==>
               && fs[env.resolve(s)].dev == fs[q].dev && fs[q].removable
               && (if fs[q].kind == Dir then fs[q].opening == Opens else !HasChild(fs, q))
               && (env.resolve(s) != q ==> IsNear(s, env.resolve(s), 16, q))
    requires forall q, k :: q in fs && env.resolve(s) <= q && |env.resolve(s)| <= k < |q| && q[..k] in fs ==>
               fs[q[..k]].ino != fs[q].ino
    ensures RemoveTree(env, fs, s, true).1
    ensures forall q :: env.resolve(s) <= q ==> q !in RemoveTree(env, fs, s, true).0
  {
    hide LegalEnv, WellNamed, Walk, IsNear, HasChild;
    var p := env.resolve(s);
    forall q | q in fs && p <= q ensures IsSound(env, fs, p, q) {
      if p != q {
        WayExists(fs, q, |q| - 1);
        assert p <= Parent(q);
      }
    }
    hide IsSound;
    RemovedIffClean(env, fs, s);
    forall q | p <= q ensures q !in RemoveTree(env, fs, s, true).0 {
      RemovalIsComplete(env, fs, s, true, q);
    }
  }

  /** An entry on another device than its parent, or the same file as a directory above it, is
      never visited and makes the removal fail; it is still there afterwards. */
  lemma {:induction false} ForeignEntryStays(env: Env, fs: Files, s: string, q: Path)
    requires Removes(env) && env.mount && Closed(fs) && WellNamed(fs)
    requires Rmdir(fs, env.resolve(s)).1 == NotEmpty && |s| <= MAX_PATH
    requires q in fs && env.resolve(s) < q
    requires || (Parent(q) in fs && fs[q].dev != fs[Parent(q)].dev)
             || (exists k :: |env.resolve(s)| <= k < |q| && q[..k] in fs
                   && fs[q[..k]].dev == fs[q].dev && fs[q[..k]].ino == fs[q].ino)
    ensures !RemoveTree(env, fs, s, true).1 && q in RemoveTree(env, fs, s, true).0
    ensures q !in Walk(env, fs, s, 16, []).visited
  {
    hide Rmdir, LegalEnv, Closed, WellNamed, Walk;
    var p := env.resolve(s);
    assert !Admitted(env, fs, p, q);
    hide Admitted, Removes;
    WalkKeepsUnvisited(env, fs, s, 16, [], q);
    RemovedIffClean(env, fs, s);
    assert !IsSound(env, fs, p, q);
    RemovesIsLocal(env);
    WalkVisits(env, fs, s, 16, q);
    ReachableIsAdmitted(env, fs, s, 16, q);
  }

  lemma {:induction false} ReachableIsAdmitted(env: Env, fs: Files, s: string, limit: nat, q: Path)
    requires Closed(fs) && q in fs && env.resolve(s) <= q
    ensures Reachable(env, fs, s, limit, q) ==> Admitted(env, fs, env.resolve(s), q)
  {
    hide Admitted;
    if Reachable(env, fs, s, limit, q) {
      assert OnTheWay(env, fs, env.resolve(s), q, |q|) && q[..|q|] == q;
    }
  }
}
