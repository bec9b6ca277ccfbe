/** What the pieces of a query and their halves are, said without searching. */
module QueryGrammar {
  import opened Bytes
  import opened Text
  import opened QueryParser

  /** `parts` are the pieces of `query`: joined by separators they give the query, with one
      separator more if the query ends in one, and no separator starts inside a piece. */
  ghost predicate IsSplit(query: bytes, sep: bytes, parts: seq<bytes>)
    requires |sep| > 0
    decreases |parts|
  {
    if query == [] then parts == []
    else
      && parts != [] && |parts[0]| <= |query| && NoneIn(query, sep, 0, |parts[0]|)
      && (|| parts == [query]
          || (parts[0] + sep <= query && IsSplit(query[|parts[0]| + |sep|..], sep, parts[1..])))
  }

  /** `pair` is the piece cut at the first equals string, or all key when it has none. */
  ghost predicate IsCut(part: bytes, eq: bytes, pair: Pair) {
    || (NoneIn(part, eq, 0, |part| + 1) && pair == Pair(part, []))
    || (part == pair.key + eq + pair.value && NoneIn(part, eq, 0, |pair.key|))
  }

  lemma {:induction false} CutIff(part: bytes, eq: bytes, pair: Pair)
    ensures Cut(part, eq) == pair <==> IsCut(part, eq, pair)
  {
    hide Find;
    FindIsFirst(part, eq, 0);
    OccursBetween(pair.key, eq, pair.value);
    match Find(part, eq, 0) {
      case None =>
      case Some(i) =>
        assert part[..i] + eq + part[i + |eq|..] == part;
        if part == pair.key + eq + pair.value && NoneIn(part, eq, 0, |pair.key|) {
          assert i == |pair.key|;
          assert part[..i] == pair.key && part[i + |eq|..] == pair.value;
        }
    }
  }

  lemma OccursBetween(a: bytes, eq: bytes, b: bytes)
    ensures OccursAt(a + eq + b, eq, |a|)
  {
    assert (a + eq + b)[|a|..|a| + |eq|] == eq;
  }

  lemma {:induction false} FirstPart(query: bytes, sep: bytes, k: nat)
    requires |sep| > 0 && k <= |query| && NoneIn(query, sep, 0, k)
    requires k == |query| || OccursAt(query, sep, k)
    ensures MatchIn(query, sep) == k
  {
    hide Find;
    if k < |query| || OccursAt(query, sep, k) {
      FindIs(query, sep, 0, k);
    } else {
      FindIsFirst(query, sep, 0);
    }
  }

  lemma {:induction false} SplitIsParts(query: bytes, sep: bytes, parts: seq<bytes>)
    requires |sep| > 0 && IsSplit(query, sep, parts)
    ensures Parts(query, sep) == parts
    decreases |parts|
  {
    hide *;
    SplitCase(query, sep, parts);
    if query == [] {
      NothingFrom(query, 0, sep);
      FromStart(query);
    } else {
      var k := |parts[0]|;
      PartsStep(query, sep);
      if parts == [query] {
        FirstPart(query, sep, k);
        NothingFrom(query, k + |sep|, sep);
        assert query[..k] == query;
      } else {
        OccursBehind(parts[0], sep, query);
        FirstPart(query, sep, k);
        FromInside(query, k + |sep|);
        SplitIsParts(query[k + |sep|..], sep, parts[1..]);
        assert parts == [parts[0]] + parts[1..];
      }
    }
  }

  lemma {:induction false} SplitCase(query: bytes, sep: bytes, parts: seq<bytes>)
    requires |sep| > 0
    ensures IsSplit(query, sep, parts) <==>
            if query == [] then parts == []
            else
              && parts != [] && |parts[0]| <= |query| && NoneIn(query, sep, 0, |parts[0]|)
              && (|| parts == [query]
                  || (parts[0] + sep <= query && IsSplit(query[|parts[0]| + |sep|..], sep, parts[1..])))
  {
    hide NoneIn;
  }

  lemma OccursBehind(a: bytes, sep: bytes, query: bytes)
    requires a + sep <= query
    ensures OccursAt(query, sep, |a|) && query[..|a|] == a
  {
    assert query[..|a + sep|] == a + sep;
    assert query[|a|..|a| + |sep|] == (a + sep)[|a|..];
  }

  lemma FromInside(query: bytes, key: nat)
    requires key <= |query|
    ensures From(query, key) == query[key..]
  {
  }

  lemma NothingFrom(query: bytes, key: nat, sep: bytes)
    requires key >= |query| && |sep| > 0
    ensures Parts(From(query, key), sep) == []
  {
    assert From(query, key) == [];
  }

  lemma {:induction false} PartsAreSplit(query: bytes, sep: bytes)
    requires |sep| > 0
    ensures IsSplit(query, sep, Parts(query, sep))
    decreases |query|
  {
    hide *;
    var parts := Parts(query, sep);
    SplitCase(query, sep, parts);
    if query == [] {
      NothingFrom(query, 0, sep);
      FromStart(query);
    } else {
      var k := MatchIn(query, sep);
      MatchIsFirst(query, sep);
      PartsStep(query, sep);
      assert parts[0] == query[..k];
      if k == |query| {
        NothingFrom(query, k + |sep|, sep);
        assert query[..k] == query;
      } else {
        OccursThere(query, sep, k);
        FromInside(query, k + |sep|);
        PartsAreSplit(query[k + |sep|..], sep);
        assert parts[1..] == Parts(query[k + |sep|..], sep);
      }
    }
  }

  lemma OccursThere(query: bytes, sep: bytes, k: nat)
    requires OccursAt(query, sep, k)
    ensures k + |sep| <= |query| && query[..k] + sep <= query
  {
    assert query[..k] + sep == query[..k + |sep|];
  }

  lemma {:induction false} MatchIsFirst(query: bytes, sep: bytes)
    requires |sep| > 0
    ensures var k := MatchIn(query, sep);
            NoneIn(query, sep, 0, k) && (k < |query| ==> OccursAt(query, sep, k))
  {
    hide Find;
    FindIsFirst(query, sep, 0);
  }

  /** The pieces of a query, for separators of any length. */
  lemma {:induction false} PartsIff(query: bytes, sep: bytes, parts: seq<bytes>)
    requires |sep| > 0
    ensures Parts(query, sep) == parts <==> IsSplit(query, sep, parts)
  {
    hide Parts, IsSplit;
    PartsAreSplit(query, sep);
    if IsSplit(query, sep, parts) {
      SplitIsParts(query, sep, parts);
    }
  }
}
