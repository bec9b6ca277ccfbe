/** A file system as a finite map from component paths to entries, and the system calls
    the recursive algorithms are built from. */
module FileSystem {

  type Path = seq<string>

  /** A directory, or anything else: links are not followed, so they are like files. */
  datatype Kind = Dir | Other

  /** What opening a directory does: it works, it is denied, it fails, or it opens but
      cannot be read. */
  datatype Opening = Opens | Denied | Fails | Unreadable

  datatype Entry = Entry(kind: Kind, dev: nat, ino: nat, opening: Opening, removable: bool)

  type Files = map<Path, Entry>

  /** A name a directory entry can have. */
  predicate IsName(n: string) {
    n != "" && '/' !in n && '\0' !in n && n != "." && n != ".."
  }

  predicate IsSlash(c: char) { c == '/' }

  predicate IsDot(n: string) { n == "." || n == ".." }

  /** `p` is `q` or an ancestor of `q`. */
  predicate IsAncestor(p: Path, q: Path) { p <= q }

  predicate HasChild(fs: Files, p: Path) {
    exists q :: q in fs && IsChild(p, q)
  }

  predicate IsChild(p: Path, q: Path) { |q| == |p| + 1 && q[..|p|] == p }

  /** Every entry but the root lies in a directory entry. */
  ghost predicate Closed(fs: Files) {
    forall q :: q in fs && |q| > 0 ==> q[..|q| - 1] in fs
  }

  lemma {:induction false} AncestorsExist(fs: Files, p: Path, q: Path)
    requires Closed(fs) && q in fs && IsAncestor(p, q)
    ensures p in fs
    decreases |q|
  {
    if |p| < |q| {
      assert q[..|q| - 1] in fs;
      AncestorsExist(fs, p, q[..|q| - 1]);
    } else {
      assert p == q;
    }
  }

  /** Removes a file, a link or an empty directory. */
  function Remove(fs: Files, p: Path): (Files, bool) {
    if p in fs && !HasChild(fs, p) && fs[p].removable then (fs - {p}, true) else (fs, false)
  }

  lemma RemoveKeepsClosed(fs: Files, p: Path)
    requires Closed(fs)
    ensures Closed(Remove(fs, p).0)
  {
    var fs' := Remove(fs, p).0;
    forall q | q in fs' && |q| > 0 ensures q[..|q| - 1] in fs' {
      assert q[..|q| - 1] == p ==> IsChild(p, q);
    }
  }

  /** A removed entry had nothing below it. */
  lemma RemovedSubtreeIsGone(fs: Files, p: Path, q: Path)
    requires Closed(fs) && Remove(fs, p).1 && IsAncestor(p, q)
    ensures q !in Remove(fs, p).0
  {
    if q in fs && p != q {
      var child := q[..|p| + 1];
      assert IsChild(p, child);
      AncestorsExist(fs, child, q);
    }
  }

  /** `now` is `fs` with some entries at or below `p` taken out, and nothing else. */
  ghost predicate OnlyBelow(fs: Files, now: Files, p: Path) {
    && (forall q :: q in now ==> q in fs && now[q] == fs[q])
    && (forall q :: q in fs && !IsAncestor(p, q) ==> q in now)
  }

  /** The two file systems agree at and below `p`. */
  ghost predicate SameBelow(a: Files, b: Files, p: Path) {
    forall q :: IsAncestor(p, q) ==> (q in a <==> q in b) && (q in a ==> a[q] == b[q])
  }
}
