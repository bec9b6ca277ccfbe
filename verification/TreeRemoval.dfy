/** Recursive removal: a walk that removes what it visits. */
module TreeRemoval {
  import opened FileSystem
  import opened TreeWalk
  import opened TreeWalkLoop
  import opened TreeVisits

  /** A walk that visits directories after their contents and removes what it visits. */
  ghost predicate Removes(env: Env) {
    && LegalEnv(env)
    && env.depth
    && forall fs, p :: env.visit(fs, p) == Remove(fs, p)
  }

  lemma RemovesIsLocal(env: Env)
    requires Removes(env)
    ensures Local(env)
  {
    hide LegalEnv, HasChild, Closed;
    forall fs, p ensures OnlyBelow(fs, env.visit(fs, p).0, p) {
      ThenRemoved(fs, p);
    }
    forall fs, p | Closed(fs) ensures Closed(env.visit(fs, p).0) {
      RemoveKeepsClosed(fs, p);
    }
  }

  lemma ThenRemoved(fs: Files, p: Path)
    ensures OnlyBelow(fs, Remove(fs, p).0, p)
  {
  }

  lemma VisitRemoves(env: Env, fs: Files, p: Path)
    requires Removes(env)
    ensures Local(env) && LegalEnv(env) && env.depth && env.visit(fs, p) == Remove(fs, p)
  {
    RemovesIsLocal(env);
  }

  /** Only what is visited is removed. */
  lemma {:induction false} WalkKeepsUnvisited(env: Env, fs: Files, s: string, limit: nat, parents: seq<Trace>, q: Path)
    requires Removes(env) && q in fs
    ensures var r := Walk(env, fs, s, limit, parents);
            q !in r.visited ==> q in r.fs && r.fs[q] == fs[q]
    decreases limit, 1, 0
  {
    hide Skipped, Entries, Removes, LegalEnv, HasChild;
    var p := env.resolve(s);
    VisitRemoves(env, fs, p);
    if s != "" && p in fs && fs[p].kind == Dir && fs[p].opening == Opens {
      var names, traces := env.readdir(fs, p), [Trace(fs[p].dev, fs[p].ino)] + parents;
      EntriesKeepUnvisited(env, fs, s, names, limit, traces, q);
      VisitRemoves(env, Entries(env, fs, s, names, limit, traces).fs, p);
    }
  }

  lemma {:induction false} EntriesKeepUnvisited(env: Env, fs: Files, s: string, names: seq<string>, limit: nat,
                                                parents: seq<Trace>, q: Path)
    requires Removes(env) && q in fs
    ensures var r := Entries(env, fs, s, names, limit, parents);
            q !in r.visited ==> q in r.fs && r.fs[q] == fs[q]
    decreases limit, 0, |names|
  {
    hide Walk, Removes, Join;
    if names != [] {
      var n, rest := names[0], names[1..];
      if limit > 0 && !IsDot(n) && |n| + |s| < MAX_PATH {
        WalkKeepsUnvisited(env, fs, Join(s, n), limit - 1, parents, q);
        var w := Walk(env, fs, Join(s, n), limit - 1, parents);
        if q in w.fs {
          EntriesKeepUnvisited(env, w.fs, s, rest, limit, parents, q);
        }
      } else {
        EntriesKeepUnvisited(env, fs, s, rest, limit, parents, q);
      }
    }
  }

  // Exactly when removal succeeds

  /** The subtree at `s` can be removed: nothing in it is on another device or loops back to
      a directory above it, every entry may be removed and every directory read, no path
      gets too long, and it is not deeper than `limit`. */
  ghost predicate Removable(env: Env, fs: Files, s: string, limit: nat, parents: seq<Trace>)
    decreases limit, 1
  {
    var p := env.resolve(s);
    && s != "" && p in fs
    && !Skipped(env, fs[p], parents)
    && fs[p].removable
    && if fs[p].kind != Dir || fs[p].opening == Denied then !HasChild(fs, p)
       else fs[p].opening == Opens &&
            forall n :: IsName(n) && p + [n] in fs ==>
              ChildRemovable(env, fs, s, n, limit, [Trace(fs[p].dev, fs[p].ino)] + parents)
  }

  ghost predicate ChildRemovable(env: Env, fs: Files, s: string, n: string, limit: nat, parents: seq<Trace>)
    decreases limit, 0
  {
    limit > 0 && |n| + |s| < MAX_PATH && Removable(env, fs, Join(s, n), limit - 1, parents)
  }

  /** Only the subtree matters. */
  lemma {:induction false} RemovableDepends(env: Env, a: Files, b: Files, s: string, limit: nat, parents: seq<Trace>)
    requires LegalEnv(env) && SameBelow(a, b, env.resolve(s))
    ensures Removable(env, a, s, limit, parents) <==> Removable(env, b, s, limit, parents)
    decreases limit, 1
  {
    hide Skipped, LegalEnv, HasChild, IsName, ChildRemovable;
    var p := env.resolve(s);
    SameChildren(a, b, p);
    if s != "" && p in a {
      var traces := [Trace(a[p].dev, a[p].ino)] + parents;
      forall n | IsName(n)
        ensures ChildRemovable(env, a, s, n, limit, traces) <==> ChildRemovable(env, b, s, n, limit, traces)
      {
        ChildDepends(env, a, b, s, n, limit, traces);
      }
    }
  }

  lemma {:induction false} ChildDepends(env: Env, a: Files, b: Files, s: string, n: string, limit: nat,
                                        parents: seq<Trace>)
    requires LegalEnv(env) && s != "" && IsName(n) && SameBelow(a, b, env.resolve(s))
    ensures ChildRemovable(env, a, s, n, limit, parents) <==> ChildRemovable(env, b, s, n, limit, parents)
    decreases limit, 0
  {
    hide LegalEnv, Removable, Join, IsName;
    if limit > 0 {
      JoinResolves(env, s, n);
      RemovableDepends(env, a, b, Join(s, n), limit - 1, parents);
    }
  }

  lemma SameChildren(a: Files, b: Files, p: Path)
    requires SameBelow(a, b, p)
    ensures HasChild(a, p) == HasChild(b, p) && (p in a <==> p in b) && (p in a ==> a[p] == b[p])
    ensures forall n :: p + [n] in a <==> p + [n] in b
  {
    assert forall q :: IsChild(p, q) ==> IsAncestor(p, q);
    assert forall n :: IsAncestor(p, p + [n]);
  }

  ghost predicate WellNamed(fs: Files) {
    forall q, i :: q in fs && 0 <= i < |q| ==> IsName(q[i])
  }

  ghost predicate ChildrenPresent(fs: Files, p: Path, names: seq<string>) {
    forall n :: n in names && IsName(n) ==> p + [n] in fs
  }

  ghost predicate ChildrenGone(fs: Files, p: Path, names: seq<string>) {
    forall n :: n in names && IsName(n) ==> p + [n] !in fs
  }

  ghost predicate AllRemovable(env: Env, fs: Files, s: string, names: seq<string>, limit: nat, parents: seq<Trace>) {
    forall n :: n in names && IsName(n) ==> ChildRemovable(env, fs, s, n, limit, parents)
  }

  lemma NoChildIff(fs: Files, now: Files, p: Path, names: seq<string>)
    requires WellNamed(fs) && OnlyInChildren(fs, now, p, names)
    requires forall n :: IsName(n) ==> (n in names <==> p + [n] in fs)
    ensures !HasChild(now, p) <==> ChildrenGone(now, p, names)
  {
    hide IsName;
    forall q | q in now && IsChild(p, q) ensures q[|p|] in names && IsName(q[|p|]) && p + [q[|p|]] == q {
      assert p + [q[|p|]] == q && q in fs;
    }
    forall n | n in names && IsName(n) ensures IsChild(p, p + [n]) {}
  }

  /** The other children of `p` look the same after a child has been walked. */
  lemma SiblingsUnchanged(env: Env, fs: Files, mid: Files, s: string, n: string, names: seq<string>,
                          limit: nat, parents: seq<Trace>)
    requires LegalEnv(env) && s != "" && IsName(n) && n !in names
    requires OnlyBelow(fs, mid, env.resolve(s) + [n])
    ensures AllRemovable(env, fs, s, names, limit, parents) <==> AllRemovable(env, mid, s, names, limit, parents)
    ensures ChildrenPresent(fs, env.resolve(s), names) ==> ChildrenPresent(mid, env.resolve(s), names)
  {
    hide LegalEnv, Removable, Join;
    var p := env.resolve(s);
    assert forall m :: m != n ==> !IsAncestor(p + [n], p + [m]) by {
      assert forall m :: (p + [m])[|p|] == m && (p + [n])[|p|] == n;
    }
    if limit > 0 {
      forall m | m in names && IsName(m)
        ensures Removable(env, fs, Join(s, m), limit - 1, parents)
           <==> Removable(env, mid, Join(s, m), limit - 1, parents)
      {
        JoinResolves(env, s, m);
        assert forall q :: IsAncestor(p + [m], q) ==> q[|p|] == m;
        RemovableDepends(env, fs, mid, Join(s, m), limit - 1, parents);
      }
    }
  }

  /** The loop over a directory leaves none of its names exactly when each can be removed. */
  lemma {:induction false} EntriesRemoveIff(env: Env, fs: Files, s: string, names: seq<string>,
                                            limit: nat, parents: seq<Trace>)
    requires Removes(env) && Closed(fs) && WellNamed(fs) && s != "" && LegalNames(names)
    requires ChildrenPresent(fs, env.resolve(s), names)
    ensures var r := Entries(env, fs, s, names, limit, parents);
            r.ok && ChildrenGone(r.fs, env.resolve(s), names) <==> AllRemovable(env, fs, s, names, limit, parents)
    decreases limit, 0, |names|
  {
    hide Walk, Removes, LegalEnv, Closed, Removable, Join, IsName, WellNamed;
    var p := env.resolve(s);
    VisitRemoves(env, fs, p);
    if names != [] {
      var n, rest := names[0], names[1..];
      assert names == [n] + rest && n !in rest;
      if IsDot(n) {
        NoNameIsDot(n);
        EntriesRemoveIff(env, fs, s, rest, limit, parents);
      } else if |n| + |s| >= MAX_PATH {
        assert n in names && !ChildRemovable(env, fs, s, n, limit, parents);
      } else if limit == 0 {
        EntriesOnlyBelow(env, fs, s, rest, limit, parents);
        assert n in names && !ChildRemovable(env, fs, s, n, limit, parents);
        StillThere(fs, Entries(env, fs, s, rest, limit, parents).fs, p, n, rest);
      } else {
        FirstChildIff(env, fs, s, names, limit, parents);
      }
    }
  }

  /** A child stays while its siblings are walked. */
  lemma StillThere(fs: Files, now: Files, p: Path, n: string, names: seq<string>)
    requires OnlyInChildren(fs, now, p, names) && n !in names
    ensures p + [n] in fs <==> p + [n] in now
  {
    assert (p + [n])[|p|] == n;
  }

  lemma {:induction false} FirstChildIff(env: Env, fs: Files, s: string, names: seq<string>,
                                         limit: nat, parents: seq<Trace>)
    requires Removes(env) && Closed(fs) && WellNamed(fs) && s != "" && LegalNames(names)
    requires ChildrenPresent(fs, env.resolve(s), names)
    requires names != [] && !IsDot(names[0]) && |names[0]| + |s| < MAX_PATH && limit > 0
    ensures var r := Entries(env, fs, s, names, limit, parents);
            r.ok && ChildrenGone(r.fs, env.resolve(s), names) <==> AllRemovable(env, fs, s, names, limit, parents)
    decreases limit, 0, |names|, 0
  {
    hide Walk, Removes, LegalEnv, Closed, Removable, Join, IsName, WellNamed, OnlyBelow, OnlyInChildren;
    var p, n, rest := env.resolve(s), names[0], names[1..];
    assert names == [n] + rest && n !in rest && n in names;
    VisitRemoves(env, fs, p);
    JoinResolves(env, s, n);
    var child := Join(s, n);
    WalkRemovesIff(env, fs, child, limit - 1, parents);
    WalkOnlyBelow(env, fs, child, limit - 1, parents);
    var w := Walk(env, fs, child, limit - 1, parents);
    SiblingsUnchanged(env, fs, w.fs, s, n, rest, limit, parents);
    SubsetWellNamed(fs, w.fs, p + [n]);
    EntriesOnlyBelow(env, w.fs, s, rest, limit, parents);
    EntriesRemoveIff(env, w.fs, s, rest, limit, parents);
    StillThere(w.fs, Entries(env, w.fs, s, rest, limit, parents).fs, p, n, rest);
  }

  lemma SubsetWellNamed(fs: Files, now: Files, p: Path)
    requires WellNamed(fs) && OnlyBelow(fs, now, p)
    ensures WellNamed(now)
  {
  }

  /** The walk removes the entry it is given exactly when its subtree can be removed. */
  lemma {:induction false} WalkRemovesIff(env: Env, fs: Files, s: string, limit: nat, parents: seq<Trace>)
    requires Removes(env) && Closed(fs) && WellNamed(fs)
    ensures var r := Walk(env, fs, s, limit, parents);
            r.ok && env.resolve(s) !in r.fs <==> Removable(env, fs, s, limit, parents)
    decreases limit, 1, 0
  {
    hide Skipped, Entries, Removes, LegalEnv, Closed, WellNamed, OnlyInChildren, HasChild, Join;
    var p := env.resolve(s);
    VisitRemoves(env, fs, p);
    if s != "" && p in fs && fs[p].kind == Dir && fs[p].opening == Opens {
      var traces, names := [Trace(fs[p].dev, fs[p].ino)] + parents, env.readdir(fs, p);
      var inside := Entries(env, fs, s, names, limit, traces);
      Listing(env, fs, p);
      EntriesOnlyBelow(env, fs, s, names, limit, traces);
      EntriesRemoveIff(env, fs, s, names, limit, traces);
      NoChildIff(fs, inside.fs, p, names);
      StaysInPlace(fs, inside.fs, p, names);
      VisitRemoves(env, inside.fs, p);
    }
  }

  lemma StaysInPlace(fs: Files, now: Files, p: Path, names: seq<string>)
    requires OnlyInChildren(fs, now, p, names) && p in fs
    ensures p in now && now[p] == fs[p]
  {
  }

  // Removing a path

  datatype RmdirResult = Removed | NotFound | NotADirectory | NotEmpty | NotPermitted

  function Rmdir(fs: Files, p: Path): (Files, RmdirResult) {
    if p !in fs then (fs, NotFound)
    else if fs[p].kind != Dir then (fs, NotADirectory)
    else if HasChild(fs, p) then (fs, NotEmpty)
    else if !fs[p].removable then (fs, NotPermitted)
    else (fs - {p}, Removed)
  }

  const REMOVAL_DEPTH: nat := 16

  /** The removal call: plain first, and by a walk when the directory is not empty. */
  function RemoveTree(env: Env, fs: Files, s: string, recursive: bool): (Files, bool) {
    var r := Rmdir(fs, env.resolve(s));
    if r.1 == Removed then (r.0, true)
    else if recursive && r.1 == NotEmpty && |s| <= MAX_PATH then
      var w := Walk(env, fs, s, REMOVAL_DEPTH, []);
      (w.fs, w.ok)
    else (fs, false)
  }

  /** The removal call as it runs, with the walk in a path buffer of its own. */
  method RemovePath(env: Env, fs: Files, s: string, recursive: bool) returns (now: Files, ok: bool)
    requires LegalEnv(env) && '\0' !in s
    ensures (now, ok) == RemoveTree(env, fs, s, recursive)
  {
    hide LegalEnv, Walk, HasChild;
    var r := Rmdir(fs, env.resolve(s));
    if r.1 == Removed {
      return r.0, true;
    }
    if !recursive || r.1 != NotEmpty || |s| > MAX_PATH {
      return fs, false;
    }
    var buf := new char[MAX_PATH + 1](_ => '\0');
    forall i | 0 <= i < |s| {
      buf[i] := s[i];
    }
    assert buf[..|s|] == s;
    var walker := new Walker(env, fs);
    ok := walker.Ftw(buf, REMOVAL_DEPTH, [], s);
    now := walker.fs;
  }

  /** Without a walk: an empty directory that may be removed goes, and everything else stays. */
  lemma PlainRemoval(env: Env, fs: Files, s: string, recursive: bool)
    ensures var p := env.resolve(s);
            var empty := p in fs && fs[p].kind == Dir && !HasChild(fs, p);
            && (empty && fs[p].removable ==> RemoveTree(env, fs, s, recursive) == (fs - {p}, true))
            && (empty && !fs[p].removable ==> RemoveTree(env, fs, s, recursive) == (fs, false))
            && (p !in fs || fs[p].kind != Dir || (!empty && (!recursive || |s| > MAX_PATH)) ==>
                  RemoveTree(env, fs, s, recursive) == (fs, false))
  {
    hide HasChild;
  }

  /** Success means that the whole subtree is gone, and whatever the outcome nothing outside
      it has been touched. */
  lemma RemovalIsComplete(env: Env, fs: Files, s: string, recursive: bool, q: Path)
    requires Removes(env) && Closed(fs)
    ensures var (now, ok) := RemoveTree(env, fs, s, recursive);
            && (ok && IsAncestor(env.resolve(s), q) ==> q !in now)
            && (!IsAncestor(env.resolve(s), q) ==> (q in now <==> q in fs))
            && (q in now ==> q in fs && now[q] == fs[q])
  {
    hide HasChild, Entries, Removes, LegalEnv, Closed, Walk, Remove;
    var p := env.resolve(s);
    VisitRemoves(env, fs, p);
    if Rmdir(fs, p).1 == Removed {
      assert Remove(fs, p) == (fs - {p}, true) by { RemoveEmpty(fs, p); }
      if IsAncestor(p, q) {
        RemovedSubtreeIsGone(fs, p, q);
      }
    } else {
      WalkOnlyBelow(env, fs, s, REMOVAL_DEPTH, []);
      RootWalkRemoves(env, fs, s, REMOVAL_DEPTH, q);
    }
  }

  lemma RemoveEmpty(fs: Files, p: Path)
    requires p in fs && !HasChild(fs, p) && fs[p].removable
    ensures Remove(fs, p) == (fs - {p}, true)
  {
  }

  /** Nothing is skipped at the top, so a walk that succeeds ends by removing its root. */
  lemma {:induction false} RootWalkRemoves(env: Env, fs: Files, s: string, limit: nat, q: Path)
    requires Removes(env) && Closed(fs)
    ensures var r := Walk(env, fs, s, limit, []);
            r.ok && IsAncestor(env.resolve(s), q) ==> q !in r.fs
  {
    hide Entries, Removes, LegalEnv, Closed, HasChild, OnlyInChildren, Remove;
    var p := env.resolve(s);
    VisitRemoves(env, fs, p);
    if s != "" && p in fs && !(fs[p].kind == Dir && fs[p].opening == Fails) && IsAncestor(p, q) {
      var mid := fs;
      if fs[p].kind == Dir && fs[p].opening == Opens {
        var traces := [Trace(fs[p].dev, fs[p].ino)] + [];
        Listing(env, fs, p);
        EntriesOnlyBelow(env, fs, s, env.readdir(fs, p), limit, traces);
        mid := Entries(env, fs, s, env.readdir(fs, p), limit, traces).fs;
      }
      VisitRemoves(env, mid, p);
      if Remove(mid, p).1 {
        RemovedSubtreeIsGone(mid, p, q);
      }
    }
  }

  /** A non-empty directory is removed exactly when its subtree allows it. */
  lemma RemovalSucceedsIff(env: Env, fs: Files, s: string)
    requires Removes(env) && Closed(fs) && WellNamed(fs)
    requires Rmdir(fs, env.resolve(s)).1 == NotEmpty && |s| <= MAX_PATH
    ensures RemoveTree(env, fs, s, true).1 <==> Removable(env, fs, s, REMOVAL_DEPTH, [])
  {
    hide HasChild, Removes, Closed, WellNamed, Walk, Removable;
    WalkRemovesIff(env, fs, s, REMOVAL_DEPTH, []);
    RootWalkRemoves(env, fs, s, REMOVAL_DEPTH, env.resolve(s));
  }
}
