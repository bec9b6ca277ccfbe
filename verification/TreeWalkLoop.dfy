/** The tree walk as it runs: recursing in one shared path buffer, with open directories
    counted. */
module TreeWalkLoop {
  import opened Text
  import opened FileSystem
  import opened TreeWalk

  /** `buf` holds `s` as a NUL-terminated string. */
  ghost predicate Holds(buf: array<char>, s: string)
    reads buf
  {
    && buf.Length == MAX_PATH + 1
    && |s| <= MAX_PATH
    && '\0' !in s
    && buf[..|s|] == s
    && buf[|s|] == '\0'
  }

  /** `buf` still starts with the path of the directory `s`, whatever was written behind it. */
  ghost predicate Starts(buf: array<char>, s: string, base: nat)
    reads buf
  {
    && buf.Length == MAX_PATH + 1
    && |s| <= MAX_PATH
    && '\0' !in s
    && base == |Base(s)|
    && buf[..base] == s[..base]
    && (base < |s| ==> buf[base] == '/')
  }

  lemma StartsWithPath(buf: array<char>, s: string)
    requires Holds(buf, s)
    ensures Starts(buf, s, |Base(s)|)
  {
    assert forall i :: 0 <= i < |s| ==> buf[..|s|][i] == buf[i];
  }

  lemma StartsWithParent(buf: array<char>, s: string, name: string)
    requires Holds(buf, Join(s, name)) && |s| <= MAX_PATH && '\0' !in s
    ensures Starts(buf, s, |Base(s)|)
  {
    var t := Join(s, name);
    assert forall i :: 0 <= i < |t| ==> buf[..|t|][i] == buf[i];
    assert t[..|Base(s)|] == Base(s) && t[|Base(s)|] == '/';
  }

  function Max(a: nat, b: nat): nat { if a < b then b else a }

  /** strlen(3). */
  method StringLength(buf: array<char>, ghost s: string) returns (len: nat)
    requires buf.Length > |s| && '\0' !in s && buf[..|s|] == s && buf[|s|] == '\0'
    ensures len == |s|
  {
    len := 0;
    while buf[len] != '\0'
      invariant len <= |s|
      decreases |s| - len
    {
      len := len + 1;
    }
  }

  class Walker {
    const env: Env
    var fs: Files
    var visited: seq<Path>
    /** Directories open now, and the most that were ever open. */
    var fds: nat
    ghost var peak: nat

    constructor (env: Env, fs: Files)
      ensures this.env == env && this.fs == fs && visited == [] && fds == 0 && peak == 0
    {
      this.env, this.fs := env, fs;
      visited, fds, peak := [], 0, 0;
    }

    method Visit(p: Path) returns (ok: bool)
      modifies this`fs, this`visited
      ensures Outcome(fs, visited, ok) == After(old(visited), VisitOne(env, old(fs), p))
    {
      var r := env.visit(fs, p);
      fs, visited, ok := r.0, visited + [p], r.1;
    }

    /** Writes `/name` at `base`. The new path fits the buffer. */
    method PutName(buf: array<char>, base: nat, name: string, ghost s: string)
      requires Starts(buf, s, base) && '\0' !in name && |name| + |s| < MAX_PATH
      modifies buf
      ensures Holds(buf, Join(s, name))
    {
      var next := Put(buf, base, "/" + name);
      ghost var t := Join(s, name);
      assert t == Base(s) + ("/" + name) && Base(s) == s[..base];
      assert buf[..next] == t;
      buf[next] := '\0';
      assert buf[..|t|] == t;
    }

    /** The loop over the names of an open directory. On success the buffer still starts with
        the directory's own path. */
    method ReadEntries(buf: array<char>, len: nat, base: nat, names: seq<string>, limit: nat,
                       parents: seq<Trace>, ghost s: string) returns (ok: bool)
      requires LegalEnv(env) && LegalNames(names) && s != "" && |s| == len && base == |Base(s)|
      requires Holds(buf, s)
      modifies this`fs, this`visited, this`fds, this`peak, buf
      ensures Outcome(fs, visited, ok)
           == After(old(visited), Entries(env, old(fs), s, names, limit, parents))
      ensures fds == old(fds) && peak <= Max(old(peak), old(fds) + limit)
      ensures ok ==> Starts(buf, s, base)
      decreases limit, 0
    {
      hide LegalEnv, Walk, Entries, Holds, Starts;
      var i := 0;
      assert names[0..] == names;
      StartsWithPath(buf, s);
      while i < |names|
        invariant i <= |names| && Starts(buf, s, base)
        invariant After(old(visited), Entries(env, old(fs), s, names, limit, parents))
               == After(visited, Entries(env, fs, s, names[i..], limit, parents))
        invariant fds == old(fds) && peak <= Max(old(peak), old(fds) + limit)
      {
        var name := names[i];
        EntriesStep(visited, env, fs, s, names, i, limit, parents);
        if IsDot(name) {
          i := i + 1;
          continue;
        }
        if |name| >= MAX_PATH - len {
          return false;
        }
        PutName(buf, base, name, s);
        ghost var t := Join(s, name);
        if limit != 0 {
          ok := Ftw(buf, limit - 1, parents, t);
          if !ok {
            return false;
          }
        }
        StartsWithParent(buf, s, name);
        i := i + 1;
      }
      assert names[i..] == [];
      NoEntries(visited, env, fs, s, limit, parents);
      return true;
    }

    /** The recursive walk. It does what the reference does; it keeps inside the buffer; on
        success the buffer holds the caller's path again; and on every exit each directory it
        has opened is closed, with never more than `limit + 1` of its own open at once. */
    method Ftw(buf: array<char>, limit: nat, parents: seq<Trace>, ghost s: string) returns (ok: bool)
      requires LegalEnv(env) && Holds(buf, s)
      modifies this`fs, this`visited, this`fds, this`peak, buf
      ensures Outcome(fs, visited, ok) == After(old(visited), Walk(env, old(fs), s, limit, parents))
      ensures fds == old(fds) && peak <= Max(old(peak), old(fds) + limit + 1)
      ensures ok ==> Holds(buf, s)
      decreases limit, 1, 1
    {
      hide LegalEnv, Enter, Skipped;
      var len := StringLength(buf, s);
      assert buf[..len] == s;
      var p := env.resolve(buf[..len]);
      if len == 0 || p !in fs {
        return false;
      }
      if Skipped(env, fs[p], parents) {
        return true;
      }
      ok := WalkEntry(buf, len, p, limit, parents, s);
    }

    /** Opens the entry if it is a directory, walks its names, and visits it before or after
        them. */
    method WalkEntry(buf: array<char>, len: nat, p: Path, limit: nat, parents: seq<Trace>, ghost s: string)
      returns (ok: bool)
      requires LegalEnv(env) && Holds(buf, s) && len == |s| > 0 && p in fs
      modifies this`fs, this`visited, this`fds, this`peak, buf
      ensures Outcome(fs, visited, ok) == After(old(visited), Enter(env, old(fs), s, p, limit, parents))
      ensures fds == old(fds) && peak <= Max(old(peak), old(fds) + limit + 1)
      ensures ok ==> Holds(buf, s)
      decreases limit, 1, 0
    {
      hide LegalEnv, Entries, Enter, VisitOne;
      EnterStep(visited, env, fs, s, p, limit, parents);
      var e := fs[p];
      var base := if buf[len - 1] == '/' then len - 1 else len;
      StartsWithPath(buf, s);
      assert base == |Base(s)| by { assert buf[..len][len - 1] == s[len - 1]; }
      var isOpen := false;
      if e.kind == Dir {
        if e.opening == Fails {
          return false;
        }
        if e.opening != Denied {
          isOpen, fds := true, fds + 1;
          peak := Max(peak, fds);
        }
      }
      if !env.depth {
        ok := Visit(p);
        if !ok {
          if isOpen {
            fds := fds - 1;
          }
          return false;
        }
      }
      if isOpen {
        if e.opening == Unreadable {
          fds := fds - 1;
          return false;
        }
        Listing(env, fs, p);
        ok := ReadEntries(buf, len, base, env.readdir(fs, p), limit, [Trace(e.dev, e.ino)] + parents, s);
        fds := fds - 1;
        if !ok {
          return false;
        }
      }
      Terminate(buf, len, base, s);
      if env.depth {
        ok := Visit(p);
        if !ok {
          return false;
        }
      }
      return true;
    }

    /** Ends the path again behind the directory's own. */
    method Terminate(buf: array<char>, len: nat, base: nat, ghost s: string)
      requires Starts(buf, s, base) && len == |s|
      modifies buf
      ensures Holds(buf, s)
    {
      buf[len] := '\0';
      assert buf[..base] == s[..base];
      assert base < len ==> base == len - 1 && s[base] == '/';
      assert buf[..len] == s;
    }
  }

  // The reference, step by step

  /** What has been visited before goes in front. */
  function After(v: seq<Path>, o: Outcome): Outcome { o.(visited := v + o.visited) }

  lemma {:induction false} EntriesStep(v: seq<Path>, env: Env, fs: Files, s: string, names: seq<string>, i: nat,
                                       limit: nat, parents: seq<Trace>)
    requires i < |names|
    ensures var rest := After(v, Entries(env, fs, s, names[i + 1..], limit, parents));
            After(v, Entries(env, fs, s, names[i..], limit, parents)) ==
            if IsDot(names[i]) then rest
            else if |names[i]| + |s| >= MAX_PATH then Outcome(fs, v, false)
            else if limit == 0 then rest
            else
              var w := Walk(env, fs, Join(s, names[i]), limit - 1, parents);
              if !w.ok then After(v, w)
              else After(v + w.visited, Entries(env, w.fs, s, names[i + 1..], limit, parents))
  {
    hide Walk;
    assert names[i..][0] == names[i] && names[i..][1..] == names[i + 1..];
    if limit > 0 {
      var w := Walk(env, fs, Join(s, names[i]), limit - 1, parents);
      AfterThen(v, w, Entries(env, w.fs, s, names[i + 1..], limit, parents));
    }
  }

  lemma AfterThen(v: seq<Path>, a: Outcome, b: Outcome)
    ensures After(v, Then(a, b)) == After(v + a.visited, b)
  {
    assert v + (a.visited + b.visited) == (v + a.visited) + b.visited;
  }

  lemma NoEntries(v: seq<Path>, env: Env, fs: Files, s: string, limit: nat, parents: seq<Trace>)
    ensures After(v, Entries(env, fs, s, [], limit, parents)) == Outcome(fs, v, true)
  {
    assert v + [] == v;
  }

  lemma {:induction false} EnterStep(v: seq<Path>, env: Env, fs: Files, s: string, p: Path, limit: nat,
                                     parents: seq<Trace>)
    requires p in fs
    ensures var e, first := fs[p], VisitOne(env, fs, p);
            var traces, listed := [Trace(e.dev, e.ino)] + parents, e.kind == Dir && e.opening != Denied;
            After(v, Enter(env, fs, s, p, limit, parents)) ==
            if e.kind == Dir && e.opening == Fails then Outcome(fs, v, false)
            else if env.depth then
              if !listed then After(v, first)
              else if e.opening == Unreadable then Outcome(fs, v, false)
              else
                var w := Entries(env, fs, s, env.readdir(fs, p), limit, traces);
                if !w.ok then After(v, w) else After(v + w.visited, VisitOne(env, w.fs, p))
            else if !first.ok || !listed then After(v, first)
            else if e.opening == Unreadable then After(v, first).(ok := false)
            else After(v + first.visited, Entries(env, first.fs, s, env.readdir(first.fs, p), limit, traces))
  {
    hide Entries, VisitOne;
    var e, first := fs[p], VisitOne(env, fs, p);
    var traces := [Trace(e.dev, e.ino)] + parents;
    assert forall u: seq<Path> :: [] + u == u;
    assert v + [] == v;
    var w := Entries(env, fs, s, env.readdir(fs, p), limit, traces);
    AfterThen(v, w, VisitOne(env, w.fs, p));
    AfterThen(v, first, Entries(env, first.fs, s, env.readdir(first.fs, p), limit, traces));
  }
}
