/** Path strings taken apart at their slashes, and a system that satisfies everything the
    walks ask of their surroundings. */
module PathNames {
  import opened Text
  import opened FileSystem
  import opened TreeWalk
  import opened TreeRemoval

  /** What stands between two slashes, unless it is nothing. */
  function Component(t: string): Path { if t == "" then [] else [t] }

  /** The non-empty components of a path string. */
  function Split(s: string): Path {
    var i := Scan(s, 0, IsSlash);
    Component(s[..i]) + (if i == |s| then [] else Split(s[i + 1..]))
  }

  lemma {:induction false} SplitAt(s: string, i: nat)
    requires i <= |s| && Scan(s, 0, IsSlash) == i
    ensures Split(s) == Component(s[..i]) + (if i == |s| then [] else Split(s[i + 1..]))
  {
    hide Scan, Component;
  }

  /** A name behind a slash is one more component; a slash alone is none. */
  lemma {:induction false} SplitAppend(a: string, n: string)
    requires '/' !in n
    ensures Split(a + "/" + n) == Split(a) + Component(n)
    decreases |a|
  {
    hide Scan, Split, Component;
    var s := a + "/" + n;
    var i := Scan(a, 0, IsSlash);
    ScanIsFirst(a, 0, IsSlash);
    SplitAt(a, i);
    ScanIs(s, 0, IsSlash, i);
    SplitAt(s, i);
    assert s[..i] == a[..i];
    if i == |a| {
      assert s[i + 1..] == n && n[..|n|] == n;
      ScanIs(n, 0, IsSlash, |n|);
      SplitAt(n, |n|);
      assert Component(a[..i]) + [] == Component(a[..i]) && Component(n) + [] == Component(n);
    } else {
      assert s[i + 1..] == a[i + 1..] + "/" + n;
      SplitAppend(a[i + 1..], n);
      Regroup(Component(a[..i]), Split(a[i + 1..]), Component(n));
    }
  }

  lemma Regroup(a: Path, b: Path, c: Path)
    ensures a + (b + c) == (a + b) + c
  {
  }

  lemma {:induction false} SplitJoin(s: string, n: string)
    requires IsName(n)
    ensures Split(Join(s, n)) == Split(s) + [n]
  {
    hide Split;
    SplitAppend(Base(s), n);
    if |s| > 0 && s[|s| - 1] == '/' {
      SplitAppend(Base(s), "");
      assert Base(s) + "/" + "" == s;
    }
  }

  /** The elements of a set, in some order. */
  ghost function Listed(names: set<string>): (r: seq<string>)
    ensures Distinct(r) && forall n :: n in r <==> n in names
  {
    if names == {} then []
    else
      var n :| n in names;
      [n] + Listed(names - {n})
  }

  ghost function ChildNames(fs: Files, p: Path): set<string> {
    set q | q in fs && IsChild(p, q) && IsName(q[|p|]) :: q[|p|]
  }

  lemma {:induction false} ChildNamesAre(fs: Files, p: Path, n: string)
    requires IsName(n)
    ensures n in ChildNames(fs, p) <==> p + [n] in fs
  {
    hide IsName;
    if p + [n] in fs {
      assert IsChild(p, p + [n]) && (p + [n])[|p|] == n;
    }
    if n in ChildNames(fs, p) {
      var q :| q in fs && IsChild(p, q) && q[|p|] == n;
      assert q == p + [n];
    }
  }

  /** There are surroundings in which the walk removes what it visits: strings resolve by
      their components and a directory lists its children. */
  lemma {:induction false} RemovalIsPossible() returns (env: Env)
    ensures Removes(env) && env.mount && env.resolve("") == []
  {
    hide IsName, Split, Join, Listed, ChildNames;
    env := Env(Split, (fs, p) => Listed(ChildNames(fs, p)), (fs, p) => Remove(fs, p), true, true);
    forall s, n | s != "" && IsName(n) ensures env.resolve(Join(s, n)) == env.resolve(s) + [n] {
      SplitJoin(s, n);
    }
    forall fs, p, n | IsName(n) ensures n in env.readdir(fs, p) <==> p + [n] in fs {
      ChildNamesAre(fs, p, n);
    }
    forall fs, p, n | n in env.readdir(fs, p) ensures IsName(n) {
      NamesOnly(fs, p, n);
    }
    EmptyHasNoComponents();
  }

  lemma NamesOnly(fs: Files, p: Path, n: string)
    requires n in ChildNames(fs, p)
    ensures IsName(n)
  {
  }

  lemma EmptyHasNoComponents()
    ensures Split("") == []
  {
    assert ""[..0] == "";
  }
}
