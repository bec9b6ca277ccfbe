/** The language the multipart parser accepts: a body is accepted exactly when it can be
    written down as a preamble, well-formed parts and a close delimiter. */
module FormGrammar {
  import opened Text
  import opened FormParams
  import opened FormHeaders
  import opened FormHeaderGrammar
  import opened FormMultipart

  const BLANK := "\r\n\r\n"

  /** One part: its header text, what that says, and its value. */
  datatype Piece = Piece(headers: string, disposition: Disposition, value: string)

  /** The headers are within the limits, make sense and stop at their first blank line; the
      value stops at its first delimiter. */
  ghost predicate IsPiece(p: Piece, boundary: string) {
    && Find(p.headers + BLANK, BLANK, 0) == Some(|p.headers|)
    && IsHeaderBlock(p.headers, p.disposition)
    && Find(p.value + Delimiter(boundary), Delimiter(boundary), 0) == Some(|p.value|)
  }

  ghost predicate ArePieces(ps: seq<Piece>, boundary: string) {
    forall i :: 0 <= i < |ps| ==> IsPiece(ps[i], boundary)
  }

  function PieceText(p: Piece, boundary: string): string {
    p.headers + BLANK + p.value + Delimiter(boundary)
  }

  /** What follows a boundary: more parts, or the closing dashes and anything at all. */
  function Tail(ps: seq<Piece>, boundary: string, epilogue: string): string {
    if ps == [] then "--" + epilogue
    else "\r\n" + (PieceText(ps[0], boundary) + Tail(ps[1..], boundary, epilogue))
  }

  function Body(preamble: string, ps: seq<Piece>, boundary: string, epilogue: string): string {
    preamble + "--" + boundary + Tail(ps, boundary, epilogue)
  }

  function Entries(ps: seq<Piece>): (es: seq<Entry>)
    ensures |es| == |ps|
  {
    seq(|ps|, i requires 0 <= i < |ps| => PieceEntry(ps[i]))
  }

  function PieceEntry(p: Piece): Entry { EntryOf(p.disposition, p.value) }

  /** The entries say what the parts say, field by field. */
  ghost predicate AreEntries(es: seq<Entry>, ps: seq<Piece>) {
    |es| == |ps| && forall i :: 0 <= i < |ps| ==> IsEntry(es[i], ps[i].disposition, ps[i].value)
  }

  lemma {:induction false} AreEntriesIff(es: seq<Entry>, ps: seq<Piece>)
    ensures AreEntries(es, ps) <==> es == Entries(ps)
  {
    hide EntryOf, IsEntry;
    forall i | 0 <= i < |ps| && |es| == |ps|
      ensures IsEntry(es[i], ps[i].disposition, ps[i].value) <==> es[i] == Entries(ps)[i]
    {
      IsEntryIff(es[i], ps[i].disposition, ps[i].value);
    }
  }

  /** The preamble does not contain the first boundary early. */
  predicate IsPreamble(preamble: string, boundary: string) {
    Find(preamble + "--" + boundary, "--" + boundary, 0) == Some(|preamble|)
  }

  // Everything in the grammar is accepted

  lemma {:induction false} PieceReads(p: Piece, boundary: string, tail: string)
    requires IsPiece(p, boundary)
    ensures PartAt(PieceText(p, boundary) + tail, boundary)
         == Ok(Part(p.disposition, |p.headers| + 4, |p.headers| + 4 + |p.value|))
  {
    hide HeaderLines, Delimiter, Find, IsHeaderBlock;
    HeaderBlockIff(p.headers, p.disposition);
    var h, d := p.headers, Delimiter(boundary);
    var s := PieceText(p, boundary) + tail;
    assert s == (h + BLANK) + (p.value + d + tail);
    FindInLonger(h + BLANK, p.value + d + tail, BLANK, |h|);
    assert s[..|h|] == h && s[|h| + 4..] == (p.value + d) + tail;
    FindInLonger(p.value + d, tail, d, |p.value|);
    FindInSuffix(s, d, |h| + 4, |h| + 4);
  }

  lemma {:induction false} TailStart(ps: seq<Piece>, boundary: string, epilogue: string)
    ensures var tail := Tail(ps, boundary, epilogue);
            |tail| >= 2 && tail[..2] == (if ps == [] then "--" else "\r\n")
            && (ps != [] ==> tail[2..] == PieceText(ps[0], boundary) + Tail(ps[1..], boundary, epilogue))
  {
    hide PieceText;
  }

  lemma {:induction false} OnePieceReads(p: Piece, boundary: string, tail: string, room: nat)
    requires IsPiece(p, boundary)
    requires |tail| >= 2 && (tail[..2] == "--" || tail[..2] == "\r\n")
    ensures PartsOf(PieceText(p, boundary) + tail, boundary, room)
         == if room == 0 then Err(MaxKeysExceeded)
            else if tail[..2] == "--" then Ok([PieceEntry(p)])
            else Continue([PieceEntry(p)], PartsOf(tail[2..], boundary, room - 1))
  {
    hide PartAt, PieceText, IsPiece, EntryOf;
    PieceReads(p, boundary, tail);
    PieceLies(p, boundary, tail);
  }

  /** Where the value and what follows it lie in a written part. */
  lemma {:induction false} PieceLies(p: Piece, boundary: string, tail: string)
    requires |tail| >= 2
    ensures var rest, h := PieceText(p, boundary) + tail, |p.headers| + 4;
            var q := h + |p.value| + 4 + |boundary|;
            && q + 2 <= |rest| && rest[h..h + |p.value|] == p.value
            && rest[q..q + 2] == tail[..2] && rest[q + 2..] == tail[2..]
  {
    hide Delimiter;
    DelimiterLength(boundary);
  }

  lemma {:induction false} PiecesRead(ps: seq<Piece>, boundary: string, epilogue: string, room: nat)
    requires ps != [] && ArePieces(ps, boundary)
    ensures PartsOf(Tail(ps, boundary, epilogue)[2..], boundary, room)
         == if |ps| <= room then Ok(Entries(ps)) else Err(MaxKeysExceeded)
    decreases |ps|
  {
    hide PartsOf, Tail, PieceText, IsPiece, PieceEntry;
    var p, tail := ps[0], Tail(ps[1..], boundary, epilogue);
    TailStart(ps, boundary, epilogue);
    TailStart(ps[1..], boundary, epilogue);
    OnePieceReads(p, boundary, tail, room);
    if |ps| == 1 {
      assert Entries(ps) == [PieceEntry(p)];
    } else if room > 0 {
      PiecesRead(ps[1..], boundary, epilogue, room - 1);
      assert Entries(ps) == [PieceEntry(p)] + Entries(ps[1..]);
    }
  }

  /** Every body of the grammar is read as its parts, for every boundary. */
  lemma {:induction false} GrammaticalIsRead(preamble: string, ps: seq<Piece>, boundary: string,
                                             epilogue: string, maxKeys: nat)
    requires IsPreamble(preamble, boundary) && ArePieces(ps, boundary)
    ensures MultipartOf(Body(preamble, ps, boundary, epilogue), boundary, maxKeys)
         == if |ps| <= maxKeys then Ok(Entries(ps)) else Err(MaxKeysExceeded)
  {
    hide PartsOf, Tail, Find, ArePieces, PieceEntry;
    var tail := Tail(ps, boundary, epilogue);
    var body := Body(preamble, ps, boundary, epilogue);
    FindInLonger(preamble + "--" + boundary, tail, "--" + boundary, |preamble|);
    TailStart(ps, boundary, epilogue);
    var p := |preamble| + 2 + |boundary|;
    assert body[p..p + 2] == tail[..2] && body[p + 2..] == tail[2..];
    if ps == [] {
      assert Entries(ps) == [];
    } else {
      PiecesRead(ps, boundary, epilogue, maxKeys);
    }
  }

  // Everything accepted is in the grammar

  lemma {:induction false} PartIsPiece(rest: string, boundary: string) returns (p: Piece)
    requires PartAt(rest, boundary).Ok?
    ensures IsPiece(p, boundary)
    ensures var part := PartAt(rest, boundary).value;
            && PieceEntry(p) == EntryOf(part.disposition, rest[part.start..part.end])
            && rest == PieceText(p, boundary) + rest[part.end + 4 + |boundary|..]
  {
    hide HeaderLines, Delimiter, Find, EntryOf, IsHeaderBlock;
    var d := Delimiter(boundary);
    DelimiterLength(boundary);
    var part := PartAt(rest, boundary).value;
    var h := part.start - 4;
    p := Piece(rest[..h], part.disposition, rest[part.start..part.end]);
    HeaderBlockIff(p.headers, p.disposition);
    FindInShorter(rest, BLANK, h);
    FindInSuffix(rest, d, h + 4, h + 4);
    var after := rest[h + 4..];
    FindInShorter(after, d, part.end - part.start);
    assert after[..part.end - part.start] == p.value;
    assert rest == rest[..h + 4] + after;
    assert after == after[..part.end - part.start + |d|] + after[part.end - part.start + |d|..];
    assert after[part.end - part.start + |d|..] == rest[part.end + |d|..];
  }

  /** An accepted list of parts is one part, closed or followed by an accepted list. */
  lemma {:induction false} PartsCase(rest: string, boundary: string, room: nat)
    requires PartsOf(rest, boundary, room).Ok?
    ensures PartAt(rest, boundary).Ok? && room > 0
    ensures var part := PartAt(rest, boundary).value;
            var entry := EntryOf(part.disposition, rest[part.start..part.end]);
            var q := part.end + 4 + |boundary|;
            var es := PartsOf(rest, boundary, room).value;
            q + 2 <= |rest| && if OccursAt(rest, "--", q) then es == [entry] && rest[q..] == "--" + rest[q + 2..]
            else
              && rest[q..] == "\r\n" + rest[q + 2..]
              && PartsOf(rest[q + 2..], boundary, room - 1).Ok?
              && es == [entry] + PartsOf(rest[q + 2..], boundary, room - 1).value
  {
    hide PartAt, EntryOf;
  }

  lemma {:induction false} MorePieces(p: Piece, more: seq<Piece>, boundary: string, epilogue: string)
    requires IsPiece(p, boundary) && ArePieces(more, boundary)
    ensures var ps := [p] + more;
            && ArePieces(ps, boundary)
            && Tail(ps, boundary, epilogue) == "\r\n" + (PieceText(p, boundary) + Tail(more, boundary, epilogue))
            && Entries(ps) == [PieceEntry(p)] + Entries(more)
  {
    hide IsPiece, PieceText, PieceEntry;
    assert ([p] + more)[1..] == more;
  }

  lemma {:induction false} PartsArePieces(rest: string, boundary: string, room: nat)
    returns (ps: seq<Piece>, epilogue: string)
    requires PartsOf(rest, boundary, room).Ok?
    ensures ps != [] && ArePieces(ps, boundary)
    ensures "\r\n" + rest == Tail(ps, boundary, epilogue)
    ensures PartsOf(rest, boundary, room).value == Entries(ps)
    decreases |rest|
  {
    hide *;
    PartsCase(rest, boundary, room);
    var p := PartIsPiece(rest, boundary);
    var part := PartAt(rest, boundary).value;
    var q := part.end + 4 + |boundary|;
    var more: seq<Piece>;
    if OccursAt(rest, "--", q) {
      more, epilogue := [], rest[q + 2..];
      NoPieces(boundary, epilogue);
    } else {
      more, epilogue := PartsArePieces(rest[q + 2..], boundary, room - 1);
    }
    assert rest[q..] == Tail(more, boundary, epilogue);
    ps := [p] + more;
    MorePieces(p, more, boundary, epilogue);
  }

  lemma {:induction false} NoPieces(boundary: string, epilogue: string)
    ensures ArePieces([], boundary) && Tail([], boundary, epilogue) == "--" + epilogue && Entries([]) == []
  {
  }

  /** Every accepted body can be written down in the grammar, with the parts it was read as. */
  lemma {:induction false} AcceptedIsGrammatical(body: string, boundary: string, maxKeys: nat)
    returns (preamble: string, ps: seq<Piece>, epilogue: string)
    requires MultipartOf(body, boundary, maxKeys).Ok?
    ensures IsPreamble(preamble, boundary) && ArePieces(ps, boundary) && |ps| <= maxKeys
    ensures body == Body(preamble, ps, boundary, epilogue)
    ensures MultipartOf(body, boundary, maxKeys) == Ok(Entries(ps))
  {
    hide PartsOf, IsPiece, PieceText, PieceEntry, Find;
    var mark := "--" + boundary;
    var m := Find(body, mark, 0).value;
    var p := m + 2 + |boundary|;
    FindInShorter(body, mark, m);
    preamble := body[..m];
    assert preamble + mark == preamble + "--" + boundary;
    assert body == body[..p] + body[p..];
    if OccursAt(body, "--", p) {
      ps, epilogue := [], body[p + 2..];
      assert body[p..] == "--" + epilogue;
    } else {
      ps, epilogue := PartsArePieces(body[p + 2..], boundary, maxKeys);
      assert body[p..] == "\r\n" + body[p + 2..];
    }
  }

  ghost predicate Derives(body: string, boundary: string, maxKeys: nat, es: seq<Entry>) {
    exists preamble, ps: seq<Piece>, epilogue ::
      && body == Body(preamble, ps, boundary, epilogue)
      && IsPreamble(preamble, boundary) && ArePieces(ps, boundary)
      && |ps| <= maxKeys && AreEntries(es, ps)
  }

  /** The parser accepts exactly the grammar. */
  lemma {:induction false} MultipartAcceptedIff(body: string, boundary: string, maxKeys: nat, es: seq<Entry>)
    ensures MultipartOf(body, boundary, maxKeys) == Ok(es) <==> Derives(body, boundary, maxKeys, es)
  {
    hide MultipartOf, Body, IsPreamble, ArePieces, AreEntries;
    if MultipartOf(body, boundary, maxKeys) == Ok(es) {
      var preamble, ps, epilogue := AcceptedIsGrammatical(body, boundary, maxKeys);
      AreEntriesIff(es, ps);
    }
    if Derives(body, boundary, maxKeys, es) {
      var preamble, ps: seq<Piece>, epilogue :|
        && body == Body(preamble, ps, boundary, epilogue)
        && IsPreamble(preamble, boundary) && ArePieces(ps, boundary)
        && |ps| <= maxKeys && AreEntries(es, ps);
      AreEntriesIff(es, ps);
      GrammaticalIsRead(preamble, ps, boundary, epilogue, maxKeys);
    }
  }
}
