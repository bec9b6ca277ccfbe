/** Creating a directory and, if asked, the directories above it, by cutting the path
    buffer short at each slash in turn. */
module MakePath {
  import opened Text
  import opened FileSystem
  import opened TreeWalk
  import opened TreeWalkLoop

  datatype Errno = EACCES | ENOTDIR | EPERM | EEXIST | ENOENT | EOTHER

  datatype Attempt = Creates(entry: Entry) | Refuses(errno: Errno)

  /** How a path resolves, and what the system does when asked to create a directory. */
  datatype System = System(resolve: string -> Path, attempt: (Files, string) -> Attempt)

  /** How a call ends. `Overread` is no result of the code: it marks a search that leaves the
      path buffer. */
  datatype Result = Done | TooLong | Failed(errno: Errno) | Overread

  /** mkdir(2): an existing path is refused, a new one appears as a directory. The empty path
      names nothing. */
  function Mkdir(sys: System, fs: Files, t: string): (Files, Result) {
    if t == "" then (fs, Failed(ENOENT)) else
    match sys.attempt(fs, t)
    case Refuses(errno) => (fs, Failed(errno))
    case Creates(entry) =>
      if sys.resolve(t) in fs then (fs, Failed(EEXIST))
      else (fs[sys.resolve(t) := entry.(kind := Dir)], Done)
  }

  /** stat(2): is there something at `t`, and is it a directory? */
  predicate Exists(sys: System, fs: Files, t: string) { t != "" && sys.resolve(t) in fs }

  predicate IsDirectory(sys: System, fs: Files, t: string) {
    Exists(sys, fs, t) && fs[sys.resolve(t)].kind == Dir
  }

  // Reference

  /** The first slash at or after `p`, or the end. */
  function NextSlash(s: string, p: nat): (r: nat)
    requires p <= |s|
    ensures p <= r <= |s|
  {
    Scan(s, p, IsSlash)
  }

  /** The prefixes of `s` that end before a slash after position `prev`, and `s` itself. */
  function Prefixes(s: string, prev: nat): seq<string>
    requires prev < |s|
    decreases |s| - prev
  {
    var p := NextSlash(s, prev + 1);
    [s[..p]] + (if p == |s| then [] else Prefixes(s, p))
  }

  /** One prefix: created, or already a directory. */
  function MakeOne(sys: System, fs: Files, t: string): (Files, Result) {
    var (fs', r) := Mkdir(sys, fs, t);
    if r == Done then (fs', Done)
    else if r.errno == EACCES || r.errno == ENOTDIR || r.errno == EPERM then (fs, r)
    else if !Exists(sys, fs, t) then (fs, r)
    else if !IsDirectory(sys, fs, t) then (fs, Failed(ENOTDIR))
    else (fs, Done)
  }

  function MakeAll(sys: System, fs: Files, ts: seq<string>): (Files, Result)
    decreases |ts|
  {
    if ts == [] then (fs, Done)
    else if |ts[0]| > MAX_PATH then (fs, TooLong)
    else
      var (fs', r) := MakeOne(sys, fs, ts[0]);
      if r == Done then MakeAll(sys, fs', ts[1..]) else (fs', r)
  }

  /** What ends the search for a slash. */
  predicate StopsSearch(c: char) { c == '/' || c == '\0' }

  /** The whole call on path `s`, with `behind` in the buffer behind its terminator. With an
      empty path the recursive search starts behind the terminator; it can stop there, with the
      path still empty, or leave the buffer. */
  function Make(sys: System, fs: Files, s: string, behind: string, recursive: bool): (Files, Result) {
    if !recursive then Mkdir(sys, fs, s)
    else if s != "" then MakeAll(sys, fs, Prefixes(s, 0))
    else
      var k := Scan(behind, 0, StopsSearch);
      if k == |behind| then (fs, Overread)
      else if behind[k] == '/' && k + 1 > MAX_PATH then (fs, TooLong)
      else (fs, Failed(ENOENT))
  }

  // What it guarantees

  /** `now` is `fs` and new directories at paths of `ts`. */
  ghost predicate OnlyAdded(sys: System, fs: Files, now: Files, ts: seq<string>) {
    && (forall q :: q in fs ==> q in now && now[q] == fs[q])
    && (forall q :: q in now && q !in fs ==> now[q].kind == Dir && exists i :: 0 <= i < |ts| && q == sys.resolve(ts[i]))
  }

  lemma MakeOneAdds(sys: System, fs: Files, t: string)
    ensures var (now, r) := MakeOne(sys, fs, t);
            && OnlyAdded(sys, fs, now, [t])
            && (r == Done ==> IsDirectory(sys, now, t))
  {
    var now := MakeOne(sys, fs, t).0;
    forall q | q in now && q !in fs ensures now[q].kind == Dir && exists i :: 0 <= i < |[t]| && q == sys.resolve([t][i]) {
      assert q == sys.resolve([t][0]);
    }
  }

  lemma AddedThenAdded(sys: System, a: Files, b: Files, c: Files, t: string, ts: seq<string>)
    requires OnlyAdded(sys, a, b, [t]) && OnlyAdded(sys, b, c, ts)
    ensures OnlyAdded(sys, a, c, [t] + ts)
  {
    var all := [t] + ts;
    forall q | q in c && q !in a ensures c[q].kind == Dir && exists i :: 0 <= i < |all| && q == sys.resolve(all[i]) {
      if q in b {
        assert q == sys.resolve(all[0]);
      } else {
        var i :| 0 <= i < |ts| && q == sys.resolve(ts[i]);
        assert all[i + 1] == ts[i];
      }
    }
  }

  /** Whatever the outcome, existing entries stay as they are and only directories at the
      given paths are added; on success every one of the paths is a directory. */
  lemma {:induction false} MakeAllAdds(sys: System, fs: Files, ts: seq<string>)
    ensures var (now, r) := MakeAll(sys, fs, ts);
            && OnlyAdded(sys, fs, now, ts)
            && (r == Done ==> forall i :: 0 <= i < |ts| ==> IsDirectory(sys, now, ts[i]))
    decreases |ts|
  {
    hide MakeOne;
    if ts != [] && |ts[0]| <= MAX_PATH {
      var (fs', r) := MakeOne(sys, fs, ts[0]);
      MakeOneAdds(sys, fs, ts[0]);
      assert ts == [ts[0]] + ts[1..];
      MakeAllAdds(sys, fs', ts[1..]);
      AddedThenAdded(sys, fs, fs', MakeAll(sys, fs', ts[1..]).0, ts[0], ts[1..]);
      AddedThenAdded(sys, fs, fs', fs', ts[0], ts[1..]);
    }
  }

  /** The prefixes are exactly the non-empty beginnings that stop before a slash, and the
      whole path. */
  lemma {:induction false} PrefixesAre(s: string, prev: nat, k: nat)
    requires prev < k <= |s|
    ensures s[..k] in Prefixes(s, prev) <==> k == |s| || s[k] == '/'
    decreases |s| - prev
  {
    ScanIsFirst(s, prev + 1, IsSlash);
    var p := NextSlash(s, prev + 1);
    var ps := Prefixes(s, prev);
    assert p < |s| ==> ps == [s[..p]] + Prefixes(s, p);
    if k < p {
      PrefixesAreLong(s, prev);
      assert forall t :: t in ps ==> |t| >= p;
    } else if k > p {
      PrefixesAre(s, p, k);
      assert |s[..k]| != |s[..p]|;
    }
  }

  lemma {:induction false} PrefixesAreLong(s: string, prev: nat)
    requires prev < |s|
    ensures forall t :: t in Prefixes(s, prev) ==> |t| >= NextSlash(s, prev + 1)
    decreases |s| - prev
  {
    var p := NextSlash(s, prev + 1);
    if p < |s| {
      PrefixesAreLong(s, p);
    }
  }

  /** After a successful recursive call every beginning of the path that stops before a slash
      is a directory, the path itself included. Whatever the outcome, nothing else is new and
      nothing old has changed. */
  lemma EveryPrefixIsADirectory(sys: System, fs: Files, s: string, behind: string, k: nat)
    ensures var (now, r) := Make(sys, fs, s, behind, true);
            && OnlyAdded(sys, fs, now, if s == "" then [] else Prefixes(s, 0))
            && (r == Done ==> s != "")
            && (r == Done && 0 < k <= |s| && (k == |s| || s[k] == '/') ==> IsDirectory(sys, now, s[..k]))
  {
    hide MakeAll, Prefixes, OnlyAdded, Scan;
    NothingAdded(sys, fs);
    if s != "" {
      MakeAllAdds(sys, fs, Prefixes(s, 0));
      if 0 < k <= |s| {
        PrefixesAre(s, 0, k);
      }
    }
  }

  lemma NothingAdded(sys: System, fs: Files)
    ensures OnlyAdded(sys, fs, fs, [])
  {
  }

  /** The search leaves the buffer exactly for the empty path, made recursively, with neither a
      slash nor a NUL behind its terminator. */
  lemma {:induction false} OverreadIff(sys: System, fs: Files, s: string, behind: string, recursive: bool)
    ensures Make(sys, fs, s, behind, recursive).1 == Overread
       <==> s == "" && recursive && '/' !in behind && '\0' !in behind
  {
    hide MakeOne, Prefixes, Scan;
    ScanIsFirst(behind, 0, StopsSearch);
    if s != "" {
      MakeAllEnds(sys, fs, Prefixes(s, 0));
    }
    if s == "" && '/' !in behind && '\0' !in behind {
      ScanIs(behind, 0, StopsSearch, |behind|);
    }
  }

  lemma {:induction false} MakeAllEnds(sys: System, fs: Files, ts: seq<string>)
    ensures MakeAll(sys, fs, ts).1 != Overread
    decreases |ts|
  {
    if ts != [] {
      MakeAllEnds(sys, MakeOne(sys, fs, ts[0]).0, ts[1..]);
    }
  }

  /** An empty path in a buffer whose other cells all hold `x`. */
  lemma {:induction false} EmptyPathOverreads(sys: System, fs: Files, behind: string)
    requires forall i :: 0 <= i < |behind| ==> behind[i] == 'x'
    ensures Make(sys, fs, "", behind, true).1 == Overread
  {
    OverreadIff(sys, fs, "", behind, true);
  }

  // The call

  /** The call itself, on the path buffer: at each slash the path is cut with a NUL, one
      directory is made, and the slash is put back. The buffer is as before however the call
      ends. */
  method MakeDirectories(sys: System, fs: Files, buf: array<char>, recursive: bool, ghost s: string)
    returns (now: Files, r: Result)
    requires buf.Length > |s| && '\0' !in s && buf[..|s|] == s && buf[|s|] == '\0'
    modifies buf
    ensures (now, r) == Make(sys, fs, s, old(buf[|s| + 1..]), recursive)
    ensures buf[..] == old(buf[..])
  {
    var end := StringLength(buf, s);
    now := fs;
    if !recursive {
      assert buf[..end] == s;
      var m := Mkdir(sys, fs, buf[..end]);
      return m.0, m.1;
    }
    if end == 0 {
      r := MakeEmpty(sys, fs, buf);
      return;
    }
    now, r := MakeEach(sys, fs, buf, end, s);
  }

  /** The first turn of the loop for an empty path; there is no second. */
  method MakeEmpty(sys: System, fs: Files, buf: array<char>) returns (r: Result)
    requires buf.Length > 0 && buf[0] == '\0'
    modifies buf
    ensures (fs, r) == Make(sys, fs, "", old(buf[1..]), true)
    ensures buf[..] == old(buf[..])
  {
    ghost var was := buf[..];
    var p := StrChr(buf, 1);
    SearchBehind(was);
    assert was[1..] == buf[1..] && forall i :: 0 <= i < |was| - 1 ==> was[1..][i] == was[i + 1];
    if p == buf.Length {
      return Overread;
    }
    if buf[p] == '\0' {
      p := 0;
    }
    if p > MAX_PATH {
      return TooLong;
    }
    buf[p] := '\0';
    var m := MakeOne(sys, fs, "");
    if p != 0 {
      buf[p] := '/';
    }
    assert buf[..] == was;
    return m.1;
  }

  lemma {:induction false} SearchBehind(cells: string)
    requires |cells| > 0
    ensures Scan(cells, 1, StopsSearch) == 1 + Scan(cells[1..], 0, StopsSearch)
  {
    hide Scan;
    var k := Scan(cells[1..], 0, StopsSearch);
    ScanIsFirst(cells[1..], 0, StopsSearch);
    forall i | 1 <= i < 1 + k ensures !StopsSearch(cells[i]) {
      assert cells[i] == cells[1..][i - 1];
    }
    ScanIs(cells, 1, StopsSearch, 1 + k);
  }

  method MakeEach(sys: System, fs: Files, buf: array<char>, end: nat, ghost s: string)
    returns (now: Files, r: Result)
    requires buf.Length > |s| == end > 0 && '\0' !in s && buf[..|s|] == s && buf[|s|] == '\0'
    modifies buf
    ensures (now, r) == MakeAll(sys, fs, Prefixes(s, 0))
    ensures buf[..] == old(buf[..])
  {
    hide MakeOne;
    now := fs;
    var prev := 0;
    ghost var was := buf[..];
    while true
      invariant prev < |s| && buf[..] == was
      invariant MakeAll(sys, fs, Prefixes(s, 0)) == MakeAll(sys, now, Prefixes(s, prev))
      decreases |s| - prev
    {
      var p := StrChr(buf, prev + 1);
      SearchInPath(was, s, prev + 1);
      if buf[p] == '\0' {
        p := end;
      }
      ghost var ps := Prefixes(s, prev);
      assert ps[0] == s[..p] && ps[1..] == if p == |s| then [] else Prefixes(s, p);
      if p > MAX_PATH {
        return now, TooLong;
      }
      buf[p] := '\0';
      assert buf[..p] == s[..p];
      var m := MakeOne(sys, now, buf[..p]);
      now := m.0;
      if p != end {
        buf[p] := '/';
      }
      assert buf[..] == was;
      if m.1 != Done {
        return now, m.1;
      }
      if p == end {
        return now, Done;
      }
      prev := p;
    }
  }

  /** Inside the path the search finds the next slash, or the terminator. */
  lemma {:induction false} SearchInPath(cells: string, s: string, from: nat)
    requires from <= |s| < |cells| && cells[..|s|] == s && cells[|s|] == '\0' && '\0' !in s
    ensures Scan(cells, from, StopsSearch) == NextSlash(s, from)
    ensures cells[NextSlash(s, from)] == if NextSlash(s, from) == |s| then '\0' else '/'
  {
    hide Scan;
    var k := NextSlash(s, from);
    ScanIsFirst(s, from, IsSlash);
    forall i | from <= i < k ensures !StopsSearch(cells[i]) {
      assert cells[i] == s[i];
    }
    assert k < |s| ==> cells[k] == s[k];
    ScanIs(cells, from, StopsSearch, k);
  }

  /** strchr(3) for a slash: where it stops, at a slash, at a NUL or at the end of the
      buffer. */
  method StrChr(buf: array<char>, from: nat) returns (p: nat)
    requires from <= buf.Length
    ensures p == Scan(buf[..], from, StopsSearch) && (p < buf.Length ==> StopsSearch(buf[p]))
  {
    p := from;
    while p < buf.Length && buf[p] != '/' && buf[p] != '\0'
      invariant from <= p <= buf.Length
      invariant Scan(buf[..], from, StopsSearch) == Scan(buf[..], p, StopsSearch)
    {
      p := p + 1;
    }
  }
}
