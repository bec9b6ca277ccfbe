/** The query-string printer, and the proof that parsing undoes it. */
module QueryStringify {
  import opened Bytes
  import opened Text
  import opened Utf8
  import opened QueryEscape
  import opened QueryUnescape
  import opened QueryParser

  /** A property of the printed object, in enumeration order. */
  datatype Prop = Prop(key: bytes, value: Value)

  function Items(v: Value): seq<bytes> {
    match v case Single(s) => [s] case Many(all) => all
  }

  function PairsFor(key: bytes, values: seq<bytes>): seq<Pair> {
    seq(|values|, i requires 0 <= i < |values| => Pair(key, values[i]))
  }

  /** All pairs of an object: its keys in order, the values of each key in order. */
  function Flat(props: seq<Prop>): seq<Pair> {
    if props == [] then []
    else
      var last := props[|props| - 1];
      Flat(props[..|props| - 1]) + PairsFor(last.key, Items(last.value))
  }

  function PairText(pair: Pair, eq: bytes): bytes {
    Escaped(pair.key) + eq + Escaped(pair.value)
  }

  /** The pairs, each after a separator. */
  function TailText(pairs: seq<Pair>, sep: bytes, eq: bytes): bytes {
    if pairs == [] then []
    else TailText(pairs[..|pairs| - 1], sep, eq) + sep + PairText(pairs[|pairs| - 1], eq)
  }

  /** The first pair comes from a string that is not the first property: the printer then
      writes a separator before it, although nothing precedes it. */
  predicate LeadingSep(props: seq<Prop>) {
    |props| > 1 &&
    if Flat(props[..|props| - 1]) == [] then props[|props| - 1].value.Single?
    else LeadingSep(props[..|props| - 1])
  }

  lemma {:induction false} FlatAppend(props: seq<Prop>, p: Prop)
    ensures Flat(props + [p]) == Flat(props) + PairsFor(p.key, Items(p.value))
  {
    assert (props + [p])[..|props|] == props;
  }

  lemma {:induction false} TailAppend(pairs: seq<Pair>, pair: Pair, sep: bytes, eq: bytes)
    ensures TailText(pairs + [pair], sep, eq) == TailText(pairs, sep, eq) + sep + PairText(pair, eq)
  {
    assert (pairs + [pair])[..|pairs|] == pairs;
  }

  lemma {:induction false} TailIsLong(pairs: seq<Pair>, sep: bytes, eq: bytes)
    ensures if pairs == [] then TailText(pairs, sep, eq) == [] else |TailText(pairs, sep, eq)| >= |sep| + |eq|
  {
    hide PairText;
    if pairs != [] {
      assert |PairText(pairs[|pairs| - 1], eq)| >= |eq| by { PairTextIsLong(pairs[|pairs| - 1], eq); }
    }
  }

  lemma PairTextIsLong(pair: Pair, eq: bytes)
    ensures |PairText(pair, eq)| >= |eq|
  {
  }

  /** What the printer has written after the pairs `pairs`; `lead` tells whether it began
      with a separator. */
  function Written(pairs: seq<Pair>, lead: bool, sep: bytes, eq: bytes): bytes {
    var text := TailText(pairs, sep, eq);
    if lead || |text| < |sep| then text else text[|sep|..]
  }

  /** The printed object. */
  function Printed(props: seq<Prop>, sep: bytes, eq: bytes): bytes {
    Written(Flat(props), LeadingSep(props), sep, eq)
  }

  lemma WrittenAppend(pairs: seq<Pair>, lead: bool, pair: Pair, sep: bytes, eq: bytes)
    requires |sep| > 0 && |eq| > 0
    ensures Written(pairs, lead, sep, eq) == [] <==> pairs == []
    ensures Written(pairs + [pair], lead, sep, eq) ==
            Written(pairs, lead, sep, eq) + (if pairs == [] && !lead then [] else sep) + PairText(pair, eq)
  {
    hide PairText, TailText;
    TailAppend(pairs, pair, sep, eq);
    TailIsLong(pairs, sep, eq);
    PairTextIsLong(pair, eq);
  }

  // What is printed

  /** The pairs with separators between them. */
  function Joined(pairs: seq<Pair>, sep: bytes, eq: bytes): bytes {
    if pairs == [] then []
    else
      var text := Escaped(pairs[0].key) + eq + Escaped(pairs[0].value);
      if |pairs| == 1 then text else text + sep + Joined(pairs[1..], sep, eq)
  }

  lemma {:induction false} TailIsJoined(pairs: seq<Pair>, sep: bytes, eq: bytes)
    requires pairs != []
    ensures TailText(pairs, sep, eq) == sep + Joined(pairs, sep, eq)
    decreases |pairs|
  {
    hide Escaped, TailText;
    TailFront(pairs, sep, eq);
    var text := PairText(pairs[0], eq);
    if |pairs| == 1 {
      assert pairs[1..] == [];
      NoTail(sep, eq);
      assert sep + text + [] == sep + text;
    } else {
      TailIsJoined(pairs[1..], sep, eq);
      assert sep + text + (sep + Joined(pairs[1..], sep, eq)) == sep + (text + sep + Joined(pairs[1..], sep, eq));
    }
  }

  /** The text of an object, for separators and equals strings of any length. */
  lemma {:induction false} PrintedIs(props: seq<Prop>, sep: bytes, eq: bytes)
    ensures Printed(props, sep, eq)
         == (if LeadingSep(props) then sep else []) + Joined(Flat(props), sep, eq)
  {
    hide LeadingSep, Flat, TailText, Joined;
    var pairs := Flat(props);
    LeadingNeedsPairs(props);
    if pairs == [] {
      NoTail(sep, eq);
      NothingJoined(sep, eq);
    } else {
      TailIsJoined(pairs, sep, eq);
      assert (sep + Joined(pairs, sep, eq))[|sep|..] == Joined(pairs, sep, eq);
      assert [] + Joined(pairs, sep, eq) == Joined(pairs, sep, eq);
    }
  }

  lemma NothingJoined(sep: bytes, eq: bytes)
    ensures Joined([], sep, eq) == []
  {
  }

  /** A separator comes first exactly when empty arrays come before the first value and that
      value is a string. */
  lemma {:induction false} LeadingSepIff(props: seq<Prop>)
    ensures LeadingSep(props) <==> exists k :: LeadsAt(props, k)
    decreases |props|
  {
    hide *;
    if |props| <= 1 {
      ShortLeads(props);
    } else {
      var init, last := props[..|props| - 1], props[|props| - 1];
      assert props == init + [last];
      LeadingSepAppend(init, last);
      FlatIsEmpty(init);
      if Flat(init) == [] {
        LeadsLast(init, last);
      } else {
        LeadingSepIff(init);
        LeadsBefore(init, last);
      }
    }
  }

  lemma {:induction false} ShortLeads(props: seq<Prop>)
    requires |props| <= 1
    ensures !LeadingSep(props) && !exists k :: LeadsAt(props, k)
  {
  }

  lemma {:induction false} LeadsLast(init: seq<Prop>, last: Prop)
    requires init != [] && forall i :: 0 <= i < |init| ==> init[i].value == Many([])
    ensures last.value.Single? <==> exists k :: LeadsAt(init + [last], k)
  {
    var props := init + [last];
    assert forall i :: 0 <= i < |init| ==> props[i] == init[i];
    assert last.value.Single? ==> LeadsAt(props, |init|);
    assert forall k :: LeadsAt(props, k) ==> k == |init|;
  }

  lemma {:induction false} LeadsBefore(init: seq<Prop>, last: Prop)
    requires exists i :: 0 <= i < |init| && init[i].value != Many([])
    ensures (exists k :: LeadsAt(init, k)) <==> exists k :: LeadsAt(init + [last], k)
  {
    var props := init + [last];
    assert forall i :: 0 <= i < |init| ==> props[i] == init[i];
    var i :| 0 <= i < |init| && init[i].value != Many([]);
    assert props[i].value != Many([]);
    if k :| LeadsAt(props, k) {
      assert k < |init|;
      assert LeadsAt(init, k);
    }
    if k :| LeadsAt(init, k) {
      assert LeadsAt(props, k);
    }
  }

  predicate LeadsAt(props: seq<Prop>, k: int) {
    && 0 < k < |props| && props[k].value.Single?
    && forall i :: 0 <= i < k ==> props[i].value == Many([])
  }

  lemma {:induction false} FlatIsEmpty(props: seq<Prop>)
    ensures Flat(props) == [] <==> forall i :: 0 <= i < |props| ==> props[i].value == Many([])
  {
    if props != [] {
      var init, last := props[..|props| - 1], props[|props| - 1];
      FlatIsEmpty(init);
      assert |PairsFor(last.key, Items(last.value))| == |Items(last.value)|;
      assert forall i :: 0 <= i < |init| ==> init[i] == props[i];
    }
  }

  // The printer

  method Push(chain: bytes, key: bytes, value: bytes, eq: bytes) returns (r: bytes)
    ensures r == chain + PairText(Pair(key, value), eq)
  {
    hide Escaped;
    r := Escape(chain, key);
    r := r + eq;
    r := Escape(r, value);
  }

  method PushArray(chain: bytes, key: bytes, values: seq<bytes>, sep: bytes, eq: bytes,
                   ghost pairs: seq<Pair>, ghost lead: bool) returns (r: bytes)
    requires |sep| > 0 && |eq| > 0 && chain == Written(pairs, lead, sep, eq)
    requires pairs == [] ==> !lead
    ensures r == Written(pairs + PairsFor(key, values), lead, sep, eq)
  {
    hide Written, PairText;
    r := chain;
    var i := 0;
    assert pairs + PairsFor(key, values[..0]) == pairs;
    while i < |values|
      invariant i <= |values|
      invariant r == Written(pairs + PairsFor(key, values[..i]), lead, sep, eq)
    {
      ghost var done := pairs + PairsFor(key, values[..i]);
      WrittenAppend(done, lead, Pair(key, values[i]), sep, eq);
      if r != [] {
        r := r + sep;
      }
      r := Push(r, key, values[i], eq);
      i := i + 1;
      assert pairs + PairsFor(key, values[..i]) == done + [Pair(key, values[i - 1])];
    }
    assert values[..i] == values;
  }

  /** The printer: an array element gets a separator when something has been written, a
      string when it is not the first property. */
  method Stringify(props: seq<Prop>, sep: bytes, eq: bytes) returns (chain: bytes)
    requires |sep| > 0 && |eq| > 0
    ensures chain == Printed(props, sep, eq)
  {
    hide Written, PairText, Flat, LeadingSep, TailText;
    chain := [];
    var n := 0;
    PrintedStart(sep, eq);
    while n < |props|
      invariant n <= |props|
      invariant chain == Written(Flat(props[..n]), LeadingSep(props[..n]), sep, eq)
    {
      ghost var before := props[..n];
      var p := props[n];
      assert props[..n + 1] == before + [p];
      FlatAppend(before, p);
      LeadingSepAppend(before, p);
      match p.value {
        case Many(all) =>
          chain := PushArray(chain, p.key, all, sep, eq, Flat(before), LeadingSep(before));
        case Single(s) =>
          assert PairsFor(p.key, Items(p.value)) == [Pair(p.key, s)];
          WrittenAppend(Flat(before), LeadingSep(before + [p]), Pair(p.key, s), sep, eq);
          WrittenEmpty(Flat(before), LeadingSep(before), LeadingSep(before + [p]), sep, eq);
          if n != 0 {
            chain := chain + sep;
          }
          chain := Push(chain, p.key, s, eq);
      }
      n := n + 1;
    }
    assert props[..n] == props;
  }

  lemma PrintedStart(sep: bytes, eq: bytes)
    ensures Written(Flat([]), LeadingSep([]), sep, eq) == []
  {
  }

  /** How the leading separator comes about, property by property. */
  lemma {:induction false} LeadingSepAppend(props: seq<Prop>, p: Prop)
    ensures LeadingSep(props + [p]) == if Flat(props) == [] then props != [] && p.value.Single? else LeadingSep(props)
    ensures Flat(props) == [] ==> !LeadingSep(props)
  {
    var all := props + [p];
    assert all[..|props|] == props;
    LeadingNeedsPairs(props);
  }

  lemma {:induction false} LeadingNeedsPairs(props: seq<Prop>)
    ensures Flat(props) == [] ==> !LeadingSep(props)
    ensures |props| == 1 ==> !LeadingSep(props)
  {
    if |props| > 1 {
      LeadingNeedsPairs(props[..|props| - 1]);
      var last := props[|props| - 1];
      if last.value.Single? {
        assert PairsFor(last.key, Items(last.value))[0] == Pair(last.key, last.value.s);
      }
    }
  }

  lemma WrittenEmpty(pairs: seq<Pair>, lead: bool, lead': bool, sep: bytes, eq: bytes)
    requires pairs != [] ==> lead == lead'
    ensures Written(pairs, lead, sep, eq) == Written(pairs, lead', sep, eq)
  {
  }

  // Parsing undoes printing

  const SEP: bytes := [AMP]
  const EQUALS: bytes := [EQ]

  /** A well-formed UTF-8 string. */
  ghost predicate IsUtf8(s: bytes) {
    exists cs: seq<Scalar> :: EncodeAll(cs) == s
  }

  ghost predicate PairIsUtf8(pair: Pair) { IsUtf8(pair.key) && IsUtf8(pair.value) }

  lemma UnescapeUtf8(s: bytes)
    requires IsUtf8(s)
    ensures Unescaped(Escaped(s)) == s
  {
    var cs: seq<Scalar> :| EncodeAll(cs) == s;
    UnescapeEscape(cs);
  }

  lemma EscapedByteHasNoSeparator(b: byte)
    ensures FreeOf(EscapedByte(b), AMP, EQ)
  {
    hide NeedEscape;
    TableMeaning(b);
  }

  lemma {:induction false} EscapedHasNoSeparator(s: bytes)
    ensures FreeOf(Escaped(s), AMP, EQ)
  {
    hide EscapedByte;
    if s != [] {
      EscapedByteHasNoSeparator(s[0]);
      EscapedHasNoSeparator(s[1..]);
    }
  }

  /** A printed pair is one non-empty piece that cuts back into its two halves. */
  lemma PairTextReadsBack(pair: Pair)
    requires PairIsUtf8(pair)
    ensures var t := PairText(pair, EQUALS);
            && t != [] && Find(t, SEP, 0).None?
            && Decoded(Cut(t, EQUALS), Unescaped) == pair
  {
    hide Escaped, Unescaped;
    var k, v := Escaped(pair.key), Escaped(pair.value);
    var t := PairText(pair, EQUALS);
    EscapedHasNoSeparator(pair.key);
    EscapedHasNoSeparator(pair.value);
    UnescapeUtf8(pair.key);
    UnescapeUtf8(pair.value);
    forall i: nat | i < |t| + 1 ensures !OccursAt(t, SEP, i) {
      OccursAtByte(t, SEP, i, 0);
    }
    FindIsFirst(t, SEP, 0);
    forall i: nat | i < |k| ensures !OccursAt(t, EQUALS, i) {
      OccursAtByte(t, EQUALS, i, 0);
    }
    assert t[|k|..|k| + 1] == EQUALS;
    FindIs(t, EQUALS, 0, |k|);
    assert t[..|k|] == k && t[|k| + 1..] == v;
  }

  lemma NoTail(sep: bytes, eq: bytes)
    ensures TailText([], sep, eq) == []
  {
  }

  lemma FourParts(a: bytes, b: bytes, c: bytes, d: bytes)
    ensures a + b + c + d == a + (b + c + d)
  {
  }

  lemma {:induction false} TailFront(pairs: seq<Pair>, sep: bytes, eq: bytes)
    requires pairs != []
    ensures TailText(pairs, sep, eq) == sep + PairText(pairs[0], eq) + TailText(pairs[1..], sep, eq)
    decreases |pairs|
  {
    hide PairText, TailText;
    var init, last := pairs[..|pairs| - 1], pairs[|pairs| - 1];
    assert pairs == init + [last];
    TailAppend(init, last, sep, eq);
    if |pairs| == 1 {
      assert pairs[1..] == [] && init == [];
      NoTail(sep, eq);
    } else {
      TailFront(init, sep, eq);
      assert pairs[1..] == init[1..] + [last];
      TailAppend(init[1..], last, sep, eq);
      FourParts(sep + PairText(pairs[0], eq), TailText(init[1..], sep, eq), sep, PairText(last, eq));
    }
  }

  lemma {:induction false} PartsFront(t: bytes, rest: bytes)
    requires t != [] && Find(t, SEP, 0).None?
    ensures Parts(t, SEP) == [t]
    ensures Parts(t + SEP + rest, SEP) == [t] + Parts(rest, SEP)
    ensures Parts(SEP + rest, SEP) == [[]] + Parts(rest, SEP)
  {
    assert t[..|t|] == t;
    FindIsFirst(t, SEP, 0);
    var s := t + SEP + rest;
    forall i: nat | i < |t| ensures !OccursAt(s, SEP, i) {
      assert !OccursAt(t, SEP, i);
      assert s[i..i + 1] == t[i..i + 1];
    }
    assert s[|t|..|t| + 1] == SEP;
    FindIs(s, SEP, 0, |t|);
    assert s[..|t|] == t && s[|t| + 1..] == rest;
    var u := SEP + rest;
    assert u[0..1] == SEP && u[..0] == [] && u[1..] == rest;
  }

  /** The pieces of a printed text decode to the pairs it was printed from. */
  lemma {:induction false} PiecesReadBack(pairs: seq<Pair>)
    requires pairs != [] && forall i :: 0 <= i < |pairs| ==> PairIsUtf8(pairs[i])
    ensures var text := TailText(pairs, SEP, EQUALS);
            && |text| > 0 && text[0] == AMP
            && |Parts(text[1..], SEP)| == |pairs|
            && PairsOf(Parts(text[1..], SEP), EQUALS, Unescaped) == pairs
    decreases |pairs|
  {
    hide PairText, TailText, Parts, Cut, Decoded, PairIsUtf8;
    var t, rest := PairText(pairs[0], EQUALS), TailText(pairs[1..], SEP, EQUALS);
    TailFront(pairs, SEP, EQUALS);
    PairTextReadsBack(pairs[0]);
    var text := TailText(pairs, SEP, EQUALS);
    assert text == SEP + (t + rest) && text[1..] == t + rest;
    if |pairs| == 1 {
      TailIsLong(pairs[1..], SEP, EQUALS);
      assert t + rest == t;
      PartsFront(t, []);
      var one: seq<bytes> := [t];
      assert one[1..] == [];
      assert pairs == [pairs[0]];
    } else {
      PiecesReadBack(pairs[1..]);
      var more := rest[1..];
      assert t + rest == t + SEP + more;
      PartsFront(t, more);
      assert ([t] + Parts(more, SEP))[1..] == Parts(more, SEP);
      assert pairs == [pairs[0]] + pairs[1..];
    }
  }

  /** How many pieces the printed text has: one more than pairs when it starts with a
      separator. */
  function PiecesOf(props: seq<Prop>): nat {
    |Flat(props)| + (if LeadingSep(props) then 1 else 0)
  }

  ghost predicate AllUtf8(props: seq<Prop>) {
    forall i :: 0 <= i < |Flat(props)| ==> PairIsUtf8(Flat(props)[i])
  }

  lemma {:induction false} PrintedPieces(props: seq<Prop>) returns (parts: seq<bytes>)
    requires AllUtf8(props)
    ensures |parts| == |Flat(props)| && PairsOf(parts, EQUALS, Unescaped) == Flat(props)
    ensures Parts(Printed(props, SEP, EQUALS), SEP) == if LeadingSep(props) then [[]] + parts else parts
  {
    hide Parts, LeadingSep, Flat, TailText, PairIsUtf8;
    var pairs := Flat(props);
    var text := TailText(pairs, SEP, EQUALS);
    TailIsLong(pairs, SEP, EQUALS);
    LeadingNeedsPairs(props);
    if pairs == [] {
      NoParts();
      parts := [];
    } else {
      PiecesReadBack(pairs);
      parts := Parts(text[1..], SEP);
      assert text == SEP + text[1..];
      NoSeparatorIn(0);
      PartsFront([0], text[1..]);
    }
  }

  /** No piece gives more than one pair, and an empty one gives none. */
  lemma {:induction false} FewPairs(parts: seq<bytes>, eq: bytes, dec: Decoder)
    ensures |PairsOf(parts, eq, dec)| <= |parts|
    ensures parts != [] && parts[0] == [] ==> PairsOf(parts, eq, dec) == PairsOf(parts[1..], eq, dec)
                                              && |PairsOf(parts, eq, dec)| < |parts|
  {
    if parts != [] {
      FewPairs(parts[1..], eq, dec);
    }
  }

  /** Parsing what was printed gives the same pairs in the same order exactly when the limit
      on keys covers every piece, the empty one made by a leading separator included. */
  lemma {:induction false} PairsReadBack(props: seq<Prop>, maxKeys: nat)
    requires AllUtf8(props)
    ensures QueryPairs(Printed(props, SEP, EQUALS), SEP, EQUALS, maxKeys, Unescaped) == Flat(props)
       <==> maxKeys >= PiecesOf(props)
  {
    hide Parts, LeadingSep, Flat, Printed, PairsOf, AllUtf8;
    var parts := PrintedPieces(props);
    var all := Parts(Printed(props, SEP, EQUALS), SEP);
    FewPairs(all, EQUALS, Unescaped);
    LeadingNeedsPairs(props);
    if LeadingSep(props) {
      assert all[0] == [] && all[1..] == parts;
    }
    if maxKeys < |all| {
      FewPairs(all[..maxKeys], EQUALS, Unescaped);
    }
  }

  /** The object `{a: [], b: "x"}` is printed as `&b=x`. With a limit of one key, which would
      do for its one pair, nothing is read back. */
  lemma {:induction false} LeadingSeparatorTakesAKey()
    ensures var props := [Prop([97], Many([])), Prop([98], Single([120]))];
            && Flat(props) == [Pair([98], [120])]
            && QueryPairs(Printed(props, SEP, EQUALS), SEP, EQUALS, 1, Unescaped) != Flat(props)
  {
    var props := [Prop([97], Many([])), Prop([98], Single([120]))];
    assert props[..1] == [Prop([97], Many([]))] && props[..1][..0] == [];
    assert Flat(props[..1]) == [];
    assert Flat(props) == [Pair([98], [120])];
    EncodeOne(98);
    EncodeOne(120);
    hide Flat, Printed, QueryPairs;
    PairsReadBack(props, 1);
  }

  lemma NoParts()
    ensures Parts([], SEP) == []
  {
  }

  lemma NoSeparatorIn(b: byte)
    requires b != AMP
    ensures Find([b], SEP, 0).None?
  {
    FindIsFirst([b], SEP, 0);
    OccursAtByte([b], SEP, 0, 0);
  }

  // The object read back

  /** The keys that have at least one value. */
  function KeptKeys(props: seq<Prop>): seq<bytes> {
    if props == [] then []
    else
      var last := props[|props| - 1];
      KeptKeys(props[..|props| - 1]) + (if Items(last.value) == [] then [] else [last.key])
  }

  predicate DistinctKeys(props: seq<Prop>) {
    forall i, j :: 0 <= i < j < |props| ==> props[i].key != props[j].key
  }

  lemma {:induction false} GatherOneKey(pairs: seq<Pair>, key: bytes, values: seq<bytes>)
    requires key !in KeysOf(pairs)
    ensures KeysOf(pairs + PairsFor(key, values))
         == KeysOf(pairs) + (if values == [] then [] else [key])
    ensures forall k :: ValuesOf(pairs + PairsFor(key, values), k)
                     == if k == key then values else ValuesOf(pairs, k)
    decreases |values|
  {
    hide KeysOf, ValuesOf;
    KeyHasValues(pairs, key);
    if values == [] {
      assert pairs + PairsFor(key, values) == pairs;
    } else {
      var init, last := values[..|values| - 1], values[|values| - 1];
      GatherOneKey(pairs, key, init);
      var done := pairs + PairsFor(key, init);
      assert pairs + PairsFor(key, values) == done + [Pair(key, last)];
      KeysOfAppend(done, Pair(key, last));
      forall k ensures ValuesOf(done + [Pair(key, last)], k) == if k == key then values else ValuesOf(pairs, k) {
        ValuesOfAppend(done, Pair(key, last), k);
        assert init + [last] == values;
      }
    }
  }

  /** Gathering the pairs of an object gives each of its keys its own values back. */
  lemma {:induction false} GatherFlat(props: seq<Prop>)
    requires DistinctKeys(props)
    ensures KeysOf(Flat(props)) == KeptKeys(props)
    ensures forall i :: 0 <= i < |props| ==> ValuesOf(Flat(props), props[i].key) == Items(props[i].value)
    ensures forall k :: (forall i :: 0 <= i < |props| ==> props[i].key != k) ==> ValuesOf(Flat(props), k) == []
  {
    hide KeysOf, ValuesOf, Flat, KeptKeys, Items;
    if props == [] {
      NoPairs();
      NoProps();
    } else {
      var init, last := props[..|props| - 1], props[|props| - 1];
      assert props == init + [last];
      GatherFlat(init);
      assert forall i :: 0 <= i < |init| ==> init[i] == props[i];
      KeyHasValues(Flat(init), last.key);
      GatherOneKey(Flat(init), last.key, Items(last.value));
      FlatAppend(init, last);
      KeptAppend(init, last);
      hide PairsFor;
    }
  }

  lemma NoProps()
    ensures Flat([]) == [] && KeptKeys([]) == []
  {
  }

  lemma {:induction false} KeptAppend(props: seq<Prop>, p: Prop)
    ensures KeptKeys(props + [p]) == KeptKeys(props) + (if Items(p.value) == [] then [] else [p.key])
  {
    hide Items;
    assert (props + [p])[..|props|] == props;
  }

  lemma NoPairs()
    ensures KeysOf([]) == [] && forall k :: ValuesOf([], k) == []
  {
  }

  /** One value is a string, more are an array. */
  function Packed(values: seq<bytes>): Value {
    if |values| == 1 then Single(values[0]) else Many(values)
  }

  /** The round trip. For every object whose values are strings or arrays of strings, the
      parsed object has the keys that have values, in order, and gives each its values: an
      empty array vanishes and an array of one becomes a string. */
  lemma {:induction false} ObjectReadsBack(props: seq<Prop>, maxKeys: nat, o: Object)
    requires DistinctKeys(props)
    requires AllUtf8(props) && maxKeys >= PiecesOf(props)
    requires Groups(o, QueryPairs(Printed(props, SEP, EQUALS), SEP, EQUALS, maxKeys, Unescaped))
    ensures o.keys == KeptKeys(props)
    ensures forall i :: 0 <= i < |props| ==>
              if Items(props[i].value) == [] then props[i].key !in o.props
              else props[i].key in o.props && o.props[props[i].key] == Packed(Items(props[i].value))
  {
    hide PiecesOf, Flat, Printed, QueryPairs, KeysOf, ValuesOf, AllUtf8;
    PairsReadBack(props, maxKeys);
    GatherFlat(props);
    forall i | 0 <= i < |props|
      ensures if Items(props[i].value) == [] then props[i].key !in o.props
              else props[i].key in o.props && o.props[props[i].key] == Packed(Items(props[i].value))
    {
      KeyHasValues(Flat(props), props[i].key);
    }
  }
}
