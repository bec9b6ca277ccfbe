/** Multipart bodies read back: parsing what was printed returns the fields that were
    printed. */
module FormRoundTrip {
  import opened Text
  import opened FormParams
  import opened FormHeaders
  import opened FormPrinter
  import opened FormHeaderGrammar
  import opened FormMultipart
  import opened FormGrammar

  function PieceFor(f: Field): Piece {
    Piece(HeaderText(f), Disposition(f.name, f.file), f.value)
  }

  function PiecesFor(fields: seq<Field>): seq<Piece> {
    seq(|fields|, i requires 0 <= i < |fields| => PieceFor(fields[i]))
  }

  /** The printed body: the grammar's, with the pieces printed for the fields. */
  function BodyText(preamble: string, fields: seq<Field>, boundary: string, epilogue: string): string {
    Body(preamble, PiecesFor(fields), boundary, epilogue)
  }

  /** The entries of the fields, in order: a file keeps its two names and loses its value. */
  ghost predicate AreFields(es: seq<Entry>, fields: seq<Field>) {
    && |es| == |fields|
    && forall i :: 0 <= i < |fields| ==>
         && es[i].name == fields[i].name
         && (fields[i].file.None? ==> es[i] == Entry(es[i].name, fields[i].value, Some(""), false))
         && (fields[i].file.Some? ==> es[i] == Entry(es[i].name, "", fields[i].file, true))
  }

  /** A field the body format can carry: it fits the header limits and its value does
      not contain the delimiter. */
  predicate Fits(f: Field, boundary: string) {
    && IsPrintable(f)
    && |HeaderText(f)| <= MAX_PART_HEADER_SIZE
    && Find(f.value, Delimiter(boundary), 0).None?
  }

  predicate AllFit(fields: seq<Field>, boundary: string) {
    forall i :: 0 <= i < |fields| ==> Fits(fields[i], boundary)
  }

  /** A boundary without CR makes a delimiter that cannot overlap itself, so the first
      delimiter after a value that has none is the one printed after it. */
  lemma {:induction false} DelimiterFollowsValue(value: string, boundary: string)
    requires '\r' !in boundary
    requires Find(value, Delimiter(boundary), 0).None?
    ensures Find(value + Delimiter(boundary), Delimiter(boundary), 0) == Some(|value|)
  {
    hide Find;
    var d := Delimiter(boundary);
    var s := value + d;
    FindIsFirst(value, d, 0);
    forall i: nat | i < |value| ensures !OccursAt(s, d, i) {
      if i + |d| <= |value| {
        OccursInBoth(value, s, d, i);
      } else {
        OccursAtByte(s, d, i, |value| - i);
        assert s[|value|] == '\r' && d[|value| - i] != '\r';
      }
    }
    assert s[|value|..|value| + |d|] == d;
    FindIs(s, d, 0, |value|);
  }

  lemma HeaderLinesAreLines(f: Field)
    requires IsPrintable(f)
    ensures var lines := [DispositionLine(f)] + f.others;
            forall i :: 0 <= i < |lines| ==> IsLine(lines[i])
  {
    hide DispositionLine, IsLine;
    DispositionLineIsLine(f);
    forall i | 0 <= i < |f.others| ensures IsLine(f.others[i]) {
      OtherHeaderIsIgnored(f.others[i], None);
    }
  }

  /** A printed field is a part of the grammar, and means the field. */
  lemma {:induction false} FieldIsPiece(f: Field, boundary: string)
    requires '\r' !in boundary && Fits(f, boundary)
    ensures IsPiece(PieceFor(f), boundary)
  {
    hide HeaderLines, IsPrintable, DispositionLine, Delimiter, JoinLines, Find, IsHeaderBlock;
    var h := HeaderText(f);
    HeaderTextReadsBack(f);
    HeaderBlockIff(h, Disposition(f.name, f.file));
    HeaderLinesAreLines(f);
    HeadersEndAtBlankLine([DispositionLine(f)] + f.others, "");
    assert h + "\r\n\r\n" + "" == h + BLANK;
    DelimiterFollowsValue(f.value, boundary);
  }

  /** The multipart round trip. Any fields that fit, printed with any CR-free boundary
      after a preamble that does not contain the dash-boundary early, parse to the same
      entries in the same order when `maxKeys` allows them, and are refused otherwise. */
  lemma {:induction false} MultipartRoundTrip(preamble: string, fields: seq<Field>, boundary: string,
                                              epilogue: string, maxKeys: nat)
    requires '\r' !in boundary && AllFit(fields, boundary) && IsPreamble(preamble, boundary)
    ensures var r := MultipartOf(BodyText(preamble, fields, boundary, epilogue), boundary, maxKeys);
            if |fields| <= maxKeys then r.Ok? && AreFields(r.value, fields) else r == Err(MaxKeysExceeded)
  {
    hide MultipartOf, Body, Fits, IsPiece, IsPreamble, PieceFor;
    var ps := PiecesFor(fields);
    forall i | 0 <= i < |fields| ensures IsPiece(ps[i], boundary) {
      FieldIsPiece(fields[i], boundary);
    }
    GrammaticalIsRead(preamble, ps, boundary, epilogue, maxKeys);
    EntriesAreFields(fields);
  }

  lemma {:induction false} EntriesAreFields(fields: seq<Field>)
    ensures AreFields(Entries(PiecesFor(fields)), fields)
  {
    hide HeaderText;
    AreEntriesIff(Entries(PiecesFor(fields)), PiecesFor(fields));
  }

  /** In every accepted body, no value contains the delimiter: it ends at the first one. */
  lemma {:induction false} ValuesAreDelimiterFree(body: string, boundary: string, maxKeys: nat)
    requires MultipartOf(body, boundary, maxKeys).Ok?
    ensures var entries := MultipartOf(body, boundary, maxKeys).value;
            forall i :: 0 <= i < |entries| ==> Find(entries[i].value, Delimiter(boundary), 0).None?
  {
    hide MultipartOf, Body, IsPreamble, Delimiter, Find, IsHeaderBlock;
    var preamble, ps, epilogue := AcceptedIsGrammatical(body, boundary, maxKeys);
    forall i | 0 <= i < |ps|
      ensures Find(Entries(ps)[i].value, Delimiter(boundary), 0).None?
    {
      DelimiterLength(boundary);
      NoneBefore(ps[i].value, Delimiter(boundary));
      NoneInEmpty(boundary);
    }
  }

  lemma NoneInEmpty(boundary: string)
    ensures Find("", Delimiter(boundary), 0).None?
  {
  }

  /** A form has files exactly when a printed field is a file. */
  lemma PrintedFilesAreFlagged(es: seq<Entry>, fields: seq<Field>)
    requires AreFields(es, fields)
    ensures HasFiles(es) <==> exists i :: 0 <= i < |fields| && fields[i].file.Some?
  {
    assert forall i :: 0 <= i < |fields| ==> es[i].isFile == fields[i].file.Some?;
    if i :| 0 <= i < |fields| && fields[i].file.Some? {
      assert es[i].isFile;
    }
  }
}
