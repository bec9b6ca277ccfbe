/** The recursive tree walk: what it visits and what it does to the file system. */
module TreeWalk {
  import opened FileSystem

  const MAX_PATH: nat := 4096

  /** The surroundings of a walk: how a path string resolves, which names a directory lists
      and in what order, what is done at a visited entry, and the two flags. */
  datatype Env = Env(
    resolve: string -> Path,
    readdir: (Files, Path) -> seq<string>,
    visit: (Files, Path) -> (Files, bool),
    mount: bool,
    depth: bool)

  /** A directory the walk is inside of. */
  datatype Trace = Trace(dev: nat, ino: nat)

  /** The file system after a walk, the paths it visited in order, and its success. */
  datatype Outcome = Outcome(fs: Files, visited: seq<Path>, ok: bool)

  /** The path string without its final slash. */
  function Base(s: string): string {
    if |s| > 0 && s[|s| - 1] == '/' then s[..|s| - 1] else s
  }

  function Join(s: string, n: string): string { Base(s) + "/" + n }

  /** The path of a child has one slash between the two. */
  lemma JoinIs(s: string, n: string)
    ensures Join(s, n) == if s != "" && s[|s| - 1] == '/' then s + n else s + "/" + n
  {
    if s != "" && s[|s| - 1] == '/' {
      assert s == s[..|s| - 1] + "/";
    }
  }

  predicate Distinct(names: seq<string>) {
    forall i, j :: 0 <= i < j < |names| ==> names[i] != names[j]
  }

  /** Joining a name resolves to that child, and a directory lists exactly its children, each
      once, next to the two dot names. */
  ghost predicate LegalEnv(env: Env) {
    && (forall s, n :: s != "" && IsName(n) ==> env.resolve(Join(s, n)) == env.resolve(s) + [n])
    && (forall fs, p :: Distinct(env.readdir(fs, p)))
    && (forall fs, p, n :: n in env.readdir(fs, p) ==> IsName(n) || IsDot(n))
    && (forall fs, p, n :: IsName(n) ==> (n in env.readdir(fs, p) <==> p + [n] in fs))
  }

  lemma JoinResolves(env: Env, s: string, n: string)
    requires LegalEnv(env) && s != "" && IsName(n)
    ensures env.resolve(Join(s, n)) == env.resolve(s) + [n]
  {
  }

  ghost predicate LegalNames(names: seq<string>) {
    Distinct(names) && forall i :: 0 <= i < |names| ==> IsName(names[i]) || IsDot(names[i])
  }

  lemma Listing(env: Env, fs: Files, p: Path)
    requires LegalEnv(env)
    ensures LegalNames(env.readdir(fs, p))
    ensures forall n :: IsName(n) ==> (n in env.readdir(fs, p) <==> p + [n] in fs)
  {
  }

  // Reference

  predicate Skipped(env: Env, e: Entry, parents: seq<Trace>) {
    || (env.mount && |parents| > 0 && e.dev != parents[0].dev)
    || Trace(e.dev, e.ino) in parents
  }

  function Walk(env: Env, fs: Files, s: string, limit: nat, parents: seq<Trace>): Outcome
    decreases limit, 1, 1
  {
    var p := env.resolve(s);
    if s == "" || p !in fs then Outcome(fs, [], false)
    else if Skipped(env, fs[p], parents) then Outcome(fs, [], true)
    else Enter(env, fs, s, p, limit, parents)
  }

  /** An entry that is not skipped. */
  function Enter(env: Env, fs: Files, s: string, p: Path, limit: nat, parents: seq<Trace>): Outcome
    requires p in fs
    decreases limit, 1, 0
  {
    var e := fs[p];
    if e.kind == Dir && e.opening == Fails then Outcome(fs, [], false)
    else
      var before := if env.depth then Outcome(fs, [], true) else VisitOne(env, fs, p);
      var inside := if !before.ok then before
                    else if e.kind != Dir || e.opening == Denied then before
                    else if e.opening == Unreadable then before.(ok := false)
                    else Then(before, Entries(env, before.fs, s, env.readdir(before.fs, p), limit,
                                              [Trace(e.dev, e.ino)] + parents));
      if inside.ok && env.depth then Then(inside, VisitOne(env, inside.fs, p)) else inside
  }

  function VisitOne(env: Env, fs: Files, p: Path): Outcome {
    var r := env.visit(fs, p);
    Outcome(r.0, [p], r.1)
  }

  function Then(a: Outcome, b: Outcome): Outcome { b.(visited := a.visited + b.visited) }

  /** The loop over the names of a directory. */
  function Entries(env: Env, fs: Files, s: string, names: seq<string>, limit: nat,
                   parents: seq<Trace>): Outcome
    decreases limit, 0, |names|
  {
    if names == [] then Outcome(fs, [], true)
    else if IsDot(names[0]) then Entries(env, fs, s, names[1..], limit, parents)
    else if |names[0]| + |s| >= MAX_PATH then Outcome(fs, [], false)
    else if limit == 0 then Entries(env, fs, s, names[1..], limit, parents)
    else
      var r := Walk(env, fs, Join(s, names[0]), limit - 1, parents);
      if !r.ok then r else Then(r, Entries(env, r.fs, s, names[1..], limit, parents))
  }

  // Post-order

  predicate AllBelow(paths: seq<Path>, p: Path) {
    forall i :: 0 <= i < |paths| ==> IsAncestor(p, paths[i])
  }

  /** No path is visited twice, and no directory before something inside it. */
  predicate PostOrder(paths: seq<Path>) {
    forall i, j :: 0 <= i < j < |paths| ==> !(paths[i] <= paths[j])
  }

  /** Every visited path lies strictly inside `p`, in one of the named children. */
  predicate InChildren(paths: seq<Path>, p: Path, names: seq<string>) {
    forall i :: 0 <= i < |paths| ==> |p| < |paths[i]| && p <= paths[i] && paths[i][|p|] in names
  }

  lemma {:induction false} WalkOrder(env: Env, fs: Files, s: string, limit: nat, parents: seq<Trace>)
    requires LegalEnv(env) && env.depth
    ensures var v := Walk(env, fs, s, limit, parents).visited;
            AllBelow(v, env.resolve(s)) && PostOrder(v)
    decreases limit, 1
  {
    hide Skipped, Entries, LegalEnv, PostOrder, AllBelow, InChildren;
    var p := env.resolve(s);
    NoVisits(p);
    ParentLast([], p, []);
    if s != "" && p in fs && fs[p].kind == Dir {
      Listing(env, fs, p);
      var names, traces := env.readdir(fs, p), [Trace(fs[p].dev, fs[p].ino)] + parents;
      EntriesOrder(env, fs, s, names, limit, traces);
      ParentLast(Entries(env, fs, s, names, limit, traces).visited, p, names);
      assert forall v: seq<Path> :: [] + v == v;
    }
  }

  lemma ParentLast(v: seq<Path>, p: Path, names: seq<string>)
    requires InChildren(v, p, names) && PostOrder(v)
    ensures AllBelow(v, p) && AllBelow(v + [p], p) && PostOrder(v + [p])
  {
  }

  lemma NoVisits(p: Path)
    ensures AllBelow([], p) && PostOrder([]) && InChildren([], p, [])
  {
  }

  lemma {:induction false} EntriesOrder(env: Env, fs: Files, s: string, names: seq<string>,
                                        limit: nat, parents: seq<Trace>)
    requires LegalEnv(env) && env.depth && s != "" && LegalNames(names)
    ensures var v := Entries(env, fs, s, names, limit, parents).visited;
            InChildren(v, env.resolve(s), names) && PostOrder(v)
    decreases limit, 0, |names|
  {
    hide Walk, LegalEnv;
    if names != [] && |names[0]| + |s| < MAX_PATH {
      var p, n := env.resolve(s), names[0];
      if limit > 0 && !IsDot(n) {
        JoinResolves(env, s, n);
        WalkOrder(env, fs, Join(s, n), limit - 1, parents);
        var r := Walk(env, fs, Join(s, n), limit - 1, parents);
        var rest := Entries(env, r.fs, s, names[1..], limit, parents);
        EntriesOrder(env, r.fs, s, names[1..], limit, parents);
        SiblingsOrder(r.visited, rest.visited, p, n, names[1..]);
      } else {
        EntriesOrder(env, fs, s, names[1..], limit, parents);
      }
    } else if names != [] && IsDot(names[0]) {
      EntriesOrder(env, fs, s, names[1..], limit, parents);
    }
  }

  lemma SiblingsOrder(a: seq<Path>, b: seq<Path>, p: Path, n: string, names: seq<string>)
    requires AllBelow(a, p + [n]) && PostOrder(a) && InChildren(b, p, names) && PostOrder(b)
    requires n !in names
    ensures PostOrder(a + b) && InChildren(a + b, p, [n] + names)
    ensures InChildren(a, p, [n] + names)
  {
    var v := a + b;
    forall i, j | 0 <= i < j < |v| ensures !(v[i] < v[j]) {
      if i < |a| <= j {
        assert a[i][|p|] == n;
        assert v[j][|p|] in names;
      }
    }
  }
}
