/** What the walk visits: exactly the entries that can be reached, when visiting an entry
    touches nothing outside it. */
module TreeVisits {
  import opened FileSystem
  import opened TreeWalk

  /** A walk that visits directories after their contents and takes away at most entries at or
      below the one it visits. */
  ghost predicate Local(env: Env) {
    && LegalEnv(env)
    && env.depth
    && (forall fs, p :: OnlyBelow(fs, env.visit(fs, p).0, p))
    && (forall fs, p :: Closed(fs) ==> Closed(env.visit(fs, p).0))
  }

  /** Only entries inside the named children of `p` are gone. */
  ghost predicate OnlyInChildren(fs: Files, now: Files, p: Path, names: seq<string>) {
    && (forall q :: q in now ==> q in fs && now[q] == fs[q])
    && (forall q :: q in fs && !(p <= q && |p| < |q| && q[|p|] in names) ==> q in now)
  }

  lemma VisitIsLocal(env: Env, fs: Files, p: Path)
    requires Local(env)
    ensures LegalEnv(env) && env.depth && OnlyBelow(fs, env.visit(fs, p).0, p)
    ensures Closed(fs) ==> Closed(env.visit(fs, p).0)
  {
  }

  lemma ThenVisited(fs: Files, mid: Files, now: Files, p: Path, names: seq<string>)
    requires OnlyInChildren(fs, mid, p, names) && OnlyBelow(mid, now, p)
    ensures OnlyBelow(fs, mid, p) && OnlyBelow(fs, now, p)
  {
  }

  lemma ThenSiblings(fs: Files, mid: Files, now: Files, p: Path, names: seq<string>)
    requires names != [] && OnlyBelow(fs, mid, p + [names[0]])
    requires OnlyInChildren(mid, now, p, names[1..])
    ensures OnlyInChildren(fs, mid, p, names) && OnlyInChildren(fs, now, p, names)
  {
    assert forall q :: p + [names[0]] <= q ==> p <= q && q[|p|] == names[0];
    assert names[0] in names && forall n :: n in names[1..] ==> n in names;
  }

  lemma MoreNames(fs: Files, now: Files, p: Path, names: seq<string>)
    requires names != [] && OnlyInChildren(fs, now, p, names[1..])
    ensures OnlyInChildren(fs, now, p, names)
  {
    assert forall n :: n in names[1..] ==> n in names;
  }

  /** A walk takes entries at or below its path, and no other. */
  lemma {:induction false} WalkOnlyBelow(env: Env, fs: Files, s: string, limit: nat, parents: seq<Trace>)
    requires Local(env) && Closed(fs)
    ensures var r := Walk(env, fs, s, limit, parents);
            OnlyBelow(fs, r.fs, env.resolve(s)) && Closed(r.fs)
    decreases limit, 1, 0
  {
    hide Skipped, Entries, Local, LegalEnv, Closed, OnlyBelow, OnlyInChildren;
    var p := env.resolve(s);
    NothingChanged(fs, p);
    VisitIsLocal(env, fs, p);
    if s != "" && p in fs && fs[p].kind == Dir && fs[p].opening == Opens {
      var traces := [Trace(fs[p].dev, fs[p].ino)] + parents;
      var inside := Entries(env, fs, s, env.readdir(fs, p), limit, traces);
      Listing(env, fs, p);
      EntriesOnlyBelow(env, fs, s, env.readdir(fs, p), limit, traces);
      VisitIsLocal(env, inside.fs, p);
      ThenVisited(fs, inside.fs, env.visit(inside.fs, p).0, p, env.readdir(fs, p));
    }
  }

  lemma NothingChanged(fs: Files, p: Path)
    ensures OnlyBelow(fs, fs, p) && OnlyInChildren(fs, fs, p, [])
  {
  }

  lemma {:induction false} EntriesOnlyBelow(env: Env, fs: Files, s: string, names: seq<string>,
                                            limit: nat, parents: seq<Trace>)
    requires Local(env) && Closed(fs) && s != "" && LegalNames(names)
    ensures var r := Entries(env, fs, s, names, limit, parents);
            OnlyInChildren(fs, r.fs, env.resolve(s), names) && Closed(r.fs)
    decreases limit, 0, |names|
  {
    hide Walk, Local, LegalEnv, Closed, OnlyBelow, OnlyInChildren, Join;
    var p := env.resolve(s);
    NothingChanged(fs, p);
    VisitIsLocal(env, fs, p);
    if names != [] {
      var n, rest := names[0], names[1..];
      if limit > 0 && !IsDot(n) && |n| + |s| < MAX_PATH {
        JoinResolves(env, s, n);
        WalkOnlyBelow(env, fs, Join(s, n), limit - 1, parents);
        var r := Walk(env, fs, Join(s, n), limit - 1, parents);
        EntriesOnlyBelow(env, r.fs, s, rest, limit, parents);
        ThenSiblings(fs, r.fs, Entries(env, r.fs, s, rest, limit, parents).fs, p, names);
      } else {
        EntriesOnlyBelow(env, fs, s, rest, limit, parents);
        MoreNames(fs, Entries(env, fs, s, rest, limit, parents).fs, p, names);
        NoNames(fs, p, names);
      }
    }
  }

  lemma NoNames(fs: Files, p: Path, names: seq<string>)
    ensures OnlyInChildren(fs, fs, p, names)
  {
  }

  // What is visited

  /** `q` is in reach of a walk from `s`: a path leads to it through directories that can be
      listed, over at most `limit` levels, on one device if asked and without a cycle. */
  ghost predicate InReach(env: Env, fs: Files, s: string, limit: nat, parents: seq<Trace>, q: Path)
    decreases limit
  {
    var p := env.resolve(s);
    && s != "" && p in fs && !Skipped(env, fs[p], parents)
    && (|| q == p
        || (fs[p].kind == Dir && fs[p].opening == Opens && limit > 0
            && exists n :: IsName(n) && p + [n] in fs
                 && InReach(env, fs, Join(s, n), limit - 1, [Trace(fs[p].dev, fs[p].ino)] + parents, q)))
  }

  ghost predicate InReachBelow(env: Env, fs: Files, s: string, names: seq<string>, limit: nat,
                               parents: seq<Trace>, q: Path)
  {
    limit > 0 && exists n :: n in names && IsName(n) && InReach(env, fs, Join(s, n), limit - 1, parents, q)
  }

  /** Only the subtree matters. */
  lemma {:induction false} ReachDepends(env: Env, a: Files, b: Files, s: string, limit: nat,
                                        parents: seq<Trace>, q: Path)
    requires LegalEnv(env) && SameBelow(a, b, env.resolve(s))
    ensures InReach(env, a, s, limit, parents, q) <==> InReach(env, b, s, limit, parents, q)
    decreases limit
  {
    hide Skipped, LegalEnv, IsName, Join;
    var p := env.resolve(s);
    if s != "" && p in a && limit > 0 {
      var traces := [Trace(a[p].dev, a[p].ino)] + parents;
      forall n | IsName(n)
        ensures InReach(env, a, Join(s, n), limit - 1, traces, q)
           <==> InReach(env, b, Join(s, n), limit - 1, traces, q)
      {
        JoinResolves(env, s, n);
        ReachDepends(env, a, b, Join(s, n), limit - 1, traces, q);
      }
      assert forall n :: IsAncestor(p, p + [n]);
    }
  }

  /** A walk visits only what is in its reach, and all of it when it succeeds. */
  lemma {:induction false} WalkVisitsIff(env: Env, fs: Files, s: string, limit: nat, parents: seq<Trace>, q: Path)
    requires Local(env) && Closed(fs)
    ensures var r := Walk(env, fs, s, limit, parents);
            && (q in r.visited ==> InReach(env, fs, s, limit, parents, q))
            && (r.ok && InReach(env, fs, s, limit, parents, q) ==> q in r.visited)
    decreases limit, 1, 0
  {
    hide Skipped, Entries, Local, LegalEnv, Closed, Join;
    var p := env.resolve(s);
    VisitIsLocal(env, fs, p);
    if s != "" && p in fs && fs[p].kind == Dir && fs[p].opening == Opens {
      var names, traces := env.readdir(fs, p), [Trace(fs[p].dev, fs[p].ino)] + parents;
      Listing(env, fs, p);
      EntriesVisitIff(env, fs, s, names, limit, traces, q);
    }
  }

  lemma {:induction false} EntriesVisitIff(env: Env, fs: Files, s: string, names: seq<string>, limit: nat,
                                           parents: seq<Trace>, q: Path)
    requires Local(env) && Closed(fs) && s != "" && LegalNames(names)
    ensures var r := Entries(env, fs, s, names, limit, parents);
            && (q in r.visited ==> InReachBelow(env, fs, s, names, limit, parents, q))
            && (r.ok && InReachBelow(env, fs, s, names, limit, parents, q) ==> q in r.visited)
    decreases limit, 0, |names|
  {
    hide Walk, Local, LegalEnv, Closed, InReach, Join, IsName;
    VisitIsLocal(env, fs, env.resolve(s));
    if names != [] {
      var n, rest := names[0], names[1..];
      assert names == [n] + rest && n !in rest;
      if limit > 0 && !IsDot(n) && |n| + |s| < MAX_PATH {
        var child := Join(s, n);
        var w := Walk(env, fs, child, limit - 1, parents);
        JoinResolves(env, s, n);
        WalkVisitsIff(env, fs, child, limit - 1, parents, q);
        WalkOnlyBelow(env, fs, child, limit - 1, parents);
        EntriesVisitIff(env, w.fs, s, rest, limit, parents, q);
        SiblingsInReach(env, fs, w.fs, s, n, rest, limit, parents, q);
      } else {
        NoNameIsDot(n);
        EntriesVisitIff(env, fs, s, rest, limit, parents, q);
      }
    }
  }

  lemma NoNameIsDot(n: string)
    ensures IsDot(n) ==> !IsName(n)
  {
  }

  /** The other children are in reach as before after a child has been walked. */
  lemma {:induction false} SiblingsInReach(env: Env, fs: Files, mid: Files, s: string, n: string, names: seq<string>,
                                           limit: nat, parents: seq<Trace>, q: Path)
    requires LegalEnv(env) && s != "" && IsName(n) && n !in names && limit > 0
    requires OnlyBelow(fs, mid, env.resolve(s) + [n])
    ensures InReachBelow(env, fs, s, names, limit, parents, q) <==> InReachBelow(env, mid, s, names, limit, parents, q)
  {
    hide LegalEnv, InReach, Join, IsName;
    var p := env.resolve(s);
    forall m | m in names && IsName(m)
      ensures InReach(env, fs, Join(s, m), limit - 1, parents, q)
         <==> InReach(env, mid, Join(s, m), limit - 1, parents, q)
    {
      JoinResolves(env, s, m);
      assert forall r :: IsAncestor(p + [m], r) ==> r[|p|] == m;
      assert forall r :: IsAncestor(p + [n], r) ==> r[|p|] == n;
      ReachDepends(env, fs, mid, Join(s, m), limit - 1, parents, q);
    }
  }
}
