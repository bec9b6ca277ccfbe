/** The query-string parser: split at the separator, cut at the equals sign, decode, and
    gather the values of each key. */
module QueryParser {
  import opened Bytes
  import opened Text

  type bytes = seq<byte>

  type Decoder = bytes -> bytes

  datatype Pair = Pair(key: bytes, value: bytes)

  /** A property value: a string, or an array of strings. */
  datatype Value = Single(s: bytes) | Many(all: seq<bytes>)

  // Reference: split, cut, group

  /** The first occurrence of `pat`, or the length. */
  function MatchIn(s: bytes, pat: bytes): (r: nat)
    ensures r <= |s|
  {
    match Find(s, pat, 0) case None => |s| case Some(i) => i
  }

  /** The pieces of `query` between separators; nothing follows a final separator. */
  function Parts(query: bytes, sep: bytes): seq<bytes>
    requires |sep| > 0
    decreases |query|
  {
    if query == [] then []
    else
      var i := MatchIn(query, sep);
      [query[..i]] + (if i + |sep| >= |query| then [] else Parts(query[i + |sep|..], sep))
  }

  /** A piece cut at the first `eq`; without one it is all key. */
  function Cut(part: bytes, eq: bytes): Pair {
    match Find(part, eq, 0)
    case None => Pair(part, [])
    case Some(i) => Pair(part[..i], part[i + |eq|..])
  }

  function Decoded(pair: Pair, dec: Decoder): Pair { Pair(dec(pair.key), dec(pair.value)) }

  /** The decoded pairs of the non-empty pieces. */
  function PairsOf(parts: seq<bytes>, eq: bytes, dec: Decoder): seq<Pair> {
    if parts == [] then []
    else if parts[0] == [] then PairsOf(parts[1..], eq, dec)
    else [Decoded(Cut(parts[0], eq), dec)] + PairsOf(parts[1..], eq, dec)
  }

  /** The pairs of the first `maxKeys` pieces, empty ones included in the count. */
  function QueryPairs(query: bytes, sep: bytes, eq: bytes, maxKeys: nat, dec: Decoder): seq<Pair>
    requires |sep| > 0
  {
    var parts := Parts(query, sep);
    PairsOf(if |parts| <= maxKeys then parts else parts[..maxKeys], eq, dec)
  }

  /** The keys in the order of their first appearance. */
  function KeysOf(pairs: seq<Pair>): seq<bytes> {
    if pairs == [] then []
    else
      var keys, last := KeysOf(pairs[..|pairs| - 1]), pairs[|pairs| - 1].key;
      if last in keys then keys else keys + [last]
  }

  /** The values of `key`, in order. */
  function ValuesOf(pairs: seq<Pair>, key: bytes): seq<bytes> {
    if pairs == [] then []
    else
      var values, last := ValuesOf(pairs[..|pairs| - 1], key), pairs[|pairs| - 1];
      if last.key == key then values + [last.value] else values
  }

  datatype Object = Object(keys: seq<bytes>, props: map<bytes, Value>)

  /** `o` gives every key of `pairs`, in order of first appearance, its values in order. */
  ghost predicate Groups(o: Object, pairs: seq<Pair>) {
    && o.keys == KeysOf(pairs)
    && (forall k :: k in o.props <==> k in o.keys)
    && (forall k :: k in o.keys ==>
          var vs := ValuesOf(pairs, k);
          o.props[k] == if |vs| == 1 then Single(vs[0]) else Many(vs))
  }

  lemma {:induction false} KeyHasValues(pairs: seq<Pair>, key: bytes)
    ensures key in KeysOf(pairs) <==> |ValuesOf(pairs, key)| > 0
  {
    if pairs != [] {
      KeyHasValues(pairs[..|pairs| - 1], key);
    }
  }

  /** Adding a pair: a new key gets a string, a string becomes an array of two, an array
      grows. */
  function Appended(o: Object, pair: Pair): Object {
    var k, v := pair.key, pair.value;
    if k !in o.props then Object(o.keys + [k], o.props[k := Single(v)])
    else
      match o.props[k]
      case Many(all) => o.(props := o.props[k := Many(all + [v])])
      case Single(s) => o.(props := o.props[k := Many([s, v])])
  }

  lemma {:induction false} ValuesOfAppend(pairs: seq<Pair>, pair: Pair, k: bytes)
    ensures ValuesOf(pairs + [pair], k)
         == ValuesOf(pairs, k) + (if k == pair.key then [pair.value] else [])
  {
    assert (pairs + [pair])[..|pairs|] == pairs;
  }

  lemma {:induction false} KeysOfAppend(pairs: seq<Pair>, pair: Pair)
    ensures KeysOf(pairs + [pair])
         == KeysOf(pairs) + (if pair.key in KeysOf(pairs) then [] else [pair.key])
  {
    assert (pairs + [pair])[..|pairs|] == pairs;
  }

  /** Adding pairs one at a time groups them. */
  lemma {:induction false} AppendedGroups(o: Object, pairs: seq<Pair>, pair: Pair)
    requires Groups(o, pairs)
    ensures Groups(Appended(o, pair), pairs + [pair])
  {
    hide KeysOf, ValuesOf;
    KeysOfAppend(pairs, pair);
    var o', all := Appended(o, pair), pairs + [pair];
    forall k | k in o'.keys
      ensures k in o'.props
      ensures var vs := ValuesOf(all, k); o'.props[k] == if |vs| == 1 then Single(vs[0]) else Many(vs)
    {
      ValuesOfAppend(pairs, pair, k);
      KeyHasValues(pairs, k);
    }
  }

  // The parser

  /** A one-byte pattern is looked up by its byte, a longer one is compared at each
      position where it still fits. */
  method Match(s: bytes, from: nat, end: nat, pat: bytes) returns (r: nat)
    requires from <= end <= |s| && |pat| > 0
    ensures r == from + MatchIn(s[from..end], pat)
  {
    if |pat| == 1 {
      r := MatchByte(s[from..end], pat[0]);
      assert [pat[0]] == pat;
    } else {
      r := MatchLong(s[from..end], pat);
    }
    r := from + r;
  }

  method MatchByte(w: bytes, b: byte) returns (p: nat)
    ensures p == MatchIn(w, [b])
  {
    p := 0;
    while p < |w| && w[p] != b
      invariant p <= |w|
      invariant Find(w, [b], 0) == Find(w, [b], p)
    {
      assert w[p..p + 1][0] == w[p];
      p := p + 1;
    }
    assert p < |w| ==> w[p..p + 1] == [b];
  }

  method MatchLong(w: bytes, pat: bytes) returns (p: nat)
    requires |pat| > 0
    ensures p == MatchIn(w, pat)
  {
    p := 0;
    while p + |pat| <= |w|
      invariant p <= |w|
      invariant Find(w, pat, 0) == Find(w, pat, p)
    {
      if w[p..p + |pat|] == pat {
        return p;
      }
      p := p + 1;
    }
    FindIsFirst(w, pat, p);
    return |w|;
  }

  /** The object being filled. */
  class Query {
    var keys: seq<bytes>
    var props: map<bytes, Value>

    constructor ()
      ensures keys == [] && props == map[]
    {
      keys, props := [], map[];
    }

    ghost function Abs(): Object
      reads this
    {
      Object(keys, props)
    }

    method Append(pair: Pair)
      modifies this
      ensures Abs() == Appended(old(Abs()), pair)
    {
      if pair.key in props {
        match props[pair.key]
        case Many(all) => props := props[pair.key := Many(all + [pair.value])];
        case Single(s) => props := props[pair.key := Many([s, pair.value])];
      } else {
        keys := keys + [pair.key];
        props := props[pair.key := Single(pair.value)];
      }
    }

    /** The parser refines the reference for any non-empty separator and equals sign. */
    method Parse(query: bytes, sep: bytes, eq: bytes, maxKeys: nat, dec: Decoder)
      requires |sep| > 0 && |eq| > 0
      requires keys == [] && props == map[]
      modifies this
      ensures Groups(Abs(), QueryPairs(query, sep, eq, maxKeys, dec))
    {
      hide QueryPairs, Groups, Appended, MatchIn, Cut, Decoded, From;
      var key, count := 0, 0;
      ghost var done: seq<Pair> := [];
      NothingGrouped();
      FromStart(query);
      while key < |query|
        invariant count <= maxKeys
        invariant Groups(Abs(), done)
        invariant QueryPairs(query, sep, eq, maxKeys, dec)
               == done + QueryPairs(From(query, key), sep, eq, maxKeys - count, dec)
        decreases |query| - key
      {
        if count == maxKeys {
          break;
        }
        QueryPairsTurn(done, query, key, sep, eq, maxKeys - count, dec);
        count := count + 1;
        var part := Match(query, key, |query|, sep);
        if part != key {
          var pair := CutPair(query, key, part, eq, dec);
          AppendedGroups(Abs(), done, pair);
          Append(pair);
          done := done + [pair];
        }
        key := part + |sep|;
      }
      QueryPairsEnd(query, key, sep, eq, maxKeys - count, dec);
      assert done + [] == done;
    }
  }

  /** Cuts the piece at `[key, part)` and decodes both halves. */
  method CutPair(query: bytes, key: nat, part: nat, eq: bytes, dec: Decoder) returns (pair: Pair)
    requires key <= part <= |query| && |eq| > 0
    ensures pair == Decoded(Cut(query[key..part], eq), dec)
  {
    ghost var w := query[key..part];
    var val := Match(query, key, part, eq);
    var size := val - key;
    FindIsFirst(w, eq, 0);
    assert val == part ==> Find(w, eq, 0).None?;
    if val != part {
      val := val + |eq|;
      assert w[size + |eq|..] == query[val..part];
    }
    assert w[..size] == query[key..key + size];
    pair := Pair(dec(query[key..key + size]), dec(query[val..part]));
  }

  /** What is left of `query` at `key`, which may lie past the end. */
  function From(query: bytes, key: nat): bytes {
    if key <= |query| then query[key..] else []
  }

  lemma NothingGrouped()
    ensures Groups(Object([], map[]), [])
  {
  }

  lemma FromStart(query: bytes)
    ensures From(query, 0) == query
  {
  }

  lemma QueryPairsEnd(query: bytes, key: nat, sep: bytes, eq: bytes, room: nat, dec: Decoder)
    requires |sep| > 0 && (key >= |query| || room == 0)
    ensures QueryPairs(From(query, key), sep, eq, room, dec) == []
  {
    assert key >= |query| ==> From(query, key) == [];
  }

  /** One turn of the loop. */
  lemma {:induction false} QueryPairsTurn(done: seq<Pair>, query: bytes, key: nat, sep: bytes, eq: bytes,
                                          room: nat, dec: Decoder)
    requires |sep| > 0 && key < |query| && room > 0
    ensures var part := key + MatchIn(query[key..|query|], sep);
            var more := QueryPairs(From(query, part + |sep|), sep, eq, room - 1, dec);
            done + QueryPairs(From(query, key), sep, eq, room, dec)
            == (if part == key then done else done + [Decoded(Cut(query[key..part], eq), dec)]) + more
  {
    hide MatchIn, Cut, Decoded, QueryPairs, Parts;
    var i := MatchIn(query[key..|query|], sep);
    assert query[key..|query|] == query[key..] == From(query, key);
    FromFrom(query, key, i, sep);
    QueryPairsStep(query[key..], sep, eq, room, dec);
    hide From;
    var more := QueryPairs(From(query, key + i + |sep|), sep, eq, room - 1, dec);
    if i == 0 {
      assert [] + more == more;
    } else {
      AppendOne(done, Decoded(Cut(query[key..key + i], eq), dec), more);
    }
  }

  lemma {:induction false} FromFrom(query: bytes, key: nat, i: nat, sep: bytes)
    requires key + i <= |query|
    ensures From(query[key..], i + |sep|) == From(query, key + i + |sep|)
    ensures query[key..][..i] == query[key..key + i]
  {
  }

  lemma {:induction false} QueryPairsStep(rest: bytes, sep: bytes, eq: bytes, room: nat, dec: Decoder)
    requires |sep| > 0 && rest != [] && room > 0
    ensures var i := MatchIn(rest, sep);
            QueryPairs(rest, sep, eq, room, dec)
            == (if i == 0 then [] else [Decoded(Cut(rest[..i], eq), dec)])
               + QueryPairs(From(rest, i + |sep|), sep, eq, room - 1, dec)
  {
    hide MatchIn, Cut, Decoded, PairsOf, Parts, From;
    var i := MatchIn(rest, sep);
    var more := Parts(From(rest, i + |sep|), sep);
    PartsStep(rest, sep);
    PairsOfStep(rest[..i], more, room, eq, dec);
  }

  lemma {:induction false} PartsStep(rest: bytes, sep: bytes)
    requires |sep| > 0 && rest != []
    ensures var i := MatchIn(rest, sep);
            Parts(rest, sep) == [rest[..i]] + Parts(From(rest, i + |sep|), sep)
  {
    hide MatchIn;
  }

  /** The first `room` pieces of `[part] + more`. */
  lemma {:induction false} PairsOfStep(part: bytes, more: seq<bytes>, room: nat, eq: bytes, dec: Decoder)
    requires room > 0
    ensures var all := [part] + more;
            PairsOf(if |all| <= room then all else all[..room], eq, dec)
            == (if |part| == 0 then [] else [Decoded(Cut(part, eq), dec)])
               + PairsOf(if |more| <= room - 1 then more else more[..room - 1], eq, dec)
  {
    hide Cut, Decoded;
    var all := [part] + more;
    if |all| <= room {
      assert all[1..] == more;
    } else {
      assert all[..room][1..] == more[..room - 1];
    }
  }
}
