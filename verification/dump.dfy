/**
 * A register bank written out the way a capture file lists it: a line of
 * hyphens under the title, then a row of two-digit hex bytes behind an
 * index column. `process_table` reads such a table back byte for byte.
 */
module Dump {
  import opened Results
  import opened Text
  import opened Hex
  import opened RegMaps
  import opened Table

  predicate AllBytes(bs: seq<nat>)
  {
    forall k :: 0 <= k < |bs| ==> bs[k] < 0x100
  }

  /** Every byte as two upper-case hex digits. */
  function HexBytes(bs: seq<nat>): (r: seq<string>)
    requires AllBytes(bs)
    ensures |r| == |bs|
  {
    seq(|bs|, k requires 0 <= k < |bs| => HexByte(bs[k]))
  }

  /** The row of a one-row table: the index column, a `|`, then the bytes. */
  function Row(bs: seq<nat>): string
    requires AllBytes(bs)
  {
    "00 | " + Join(HexBytes(bs), ' ')
  }

  /** A section as the capture file lists it: title, hyphen line, row. */
  function Listing(title: string, bs: seq<nat>): string
    requires AllBytes(bs)
  {
    title + "\n----\n" + Row(bs)
  }

  /** The row holds only hex digits, spaces, the index column and its `|`. */
  lemma RowAvoids(bs: seq<nat>)
    requires AllBytes(bs)
    ensures '-' !in Row(bs) && '\n' !in Row(bs)
    ensures '|' !in Join(HexBytes(bs), ' ') && '\n' !in Join(HexBytes(bs), ' ')
  {
    var ts := HexBytes(bs);
    forall k | 0 <= k < |ts|
      ensures '-' !in ts[k] && '\n' !in ts[k] && '|' !in ts[k] && ' ' !in ts[k]
    {
      assert AllHex(ts[k]);
    }
    JoinAvoids(ts, ' ', '-');
    JoinAvoids(ts, ' ', '\n');
    JoinAvoids(ts, ' ', '|');
  }

  /** The last hyphen of a section closes its hyphen line; after it come a line break and the row. */
  lemma SectionHyphen(title: string, bs: seq<nat>)
    requires AllBytes(bs)
    ensures LastIndexOf(Listing(title, bs), '-') == Some(|title| + 4)
    ensures Listing(title, bs)[|title| + 5..] == "\n" + Row(bs)
  {
    var head := title + "\n----";
    RowAvoids(bs);
    assert '-' !in "\n" + Row(bs);
    assert Listing(title, bs) == head + ("\n" + Row(bs));
    LastIndexOfAppend(head, "\n" + Row(bs), '-');
    assert head[|head| - 1] == '-';
  }

  /** The row's piece is the bytes, joined by single spaces. */
  lemma RowPiece(bs: seq<nat>)
    requires AllBytes(bs) && |bs| > 0
    ensures Piece(Row(bs)) == Join(HexBytes(bs), ' ')
  {
    var joined := Join(HexBytes(bs), ' ');
    var row := Row(bs);
    RowAvoids(bs);
    assert row[3] == '|' && row[..3] == "00 ";
    assert IndexOf(row, '|') == Some(3);
    assert row[4..] == " " + joined;
    TrimLeadingSpace(joined);
    JoinedBytesTrimmed(bs);
  }

  /** Two-digit bytes joined by spaces start and end with a digit, so `trim` keeps them whole. */
  lemma JoinedBytesTrimmed(bs: seq<nat>)
    requires AllBytes(bs) && |bs| > 0
    ensures Trim(Join(HexBytes(bs), ' ')) == Join(HexBytes(bs), ' ')
  {
    var ts := HexBytes(bs);
    assert ts[0] == HexByte(bs[0]) && ts[|ts| - 1] == HexByte(bs[|bs| - 1]);
    JoinEnds(ts, ' ');
    TrimUnchanged(Join(ts, ' '));
  }

  /** After the hyphen come an empty line and the row. */
  lemma SectionLines(title: string, bs: seq<nat>)
    requires AllBytes(bs)
    ensures Split(Listing(title, bs)[|title| + 5..], '\n') == ["", Row(bs)]
  {
    var row := Row(bs);
    SectionHyphen(title, bs);
    RowAvoids(bs);
    assert "\n" + row == "" + ['\n'] + row;
    SplitAround("", row, '\n');
    SplitNoDelimiter(row, '\n');
  }

  /** Splitting the row's bytes on spaces gives back the two-digit tokens. */
  lemma HexBytesSplit(bs: seq<nat>)
    requires AllBytes(bs) && |bs| > 0
    ensures Split(Join(HexBytes(bs), ' '), ' ') == HexBytes(bs)
  {
    var ts := HexBytes(bs);
    forall k | 0 <= k < |ts|
      ensures ' ' !in ts[k]
    {
      assert AllHex(ts[k]);
    }
    SplitJoin(ts, ' ');
  }

  /** What `process_table` parses from a listed bank: its bytes as two-digit tokens. */
  lemma SectionTokens(title: string, bs: seq<nat>)
    requires AllBytes(bs) && |bs| > 0
    ensures ParseTable(Listing(title, bs)) == ParseTokens(HexBytes(bs))
  {
    var ts := HexBytes(bs);
    var joined := Join(ts, ' ');
    SectionHyphen(title, bs);
    SectionLines(title, bs);
    FlattenedAfterBlank(Row(bs));
    RowPiece(bs);
    ParseTableAfter(Listing(title, bs), |title| + 4, joined);
    HexBytesSplit(bs);
  }

  /** Every listed byte parses back to its value. */
  lemma HexBytesParse(bs: seq<nat>)
    requires AllBytes(bs)
    ensures ParseTokens(HexBytes(bs)).Ok?
    ensures |ParseTokens(HexBytes(bs)).value| == |bs|
    ensures forall k :: 0 <= k < |bs| ==> ParseTokens(HexBytes(bs)).value[k] == ToByte(bs[k])
  {
    var ts := HexBytes(bs);
    forall k | 0 <= k < |ts|
      ensures ParseInt(ts[k]) == Some(bs[k])
    {
      ParseHexByte(bs[k]);
    }
    ParseTokensOk(ts);
    ParseTokensValues(ts);
  }

  /** A bank holding each value truncated by `toByte()` reads every value back with `read8`. */
  lemma ReadsBack(bs: seq<nat>, data: seq<SByte>)
    requires AllBytes(bs) && |data| == |bs|
    requires forall k :: 0 <= k < |bs| ==> data[k] == ToByte(bs[k])
    ensures forall k :: 0 <= k < |bs| ==> RegMap(data).Read8(k) == Ok(bs[k])
  {
    forall k | 0 <= k < |bs|
      ensures RegMap(data).Read8(k) == Ok(bs[k])
    {
      Read8Unsigned(RegMap(data), k);
      UnsignedToByte(bs[k]);
    }
  }

  /**
   * Round trip: `process_table` reads a listed bank back as one byte per
   * listed value, and `read8` at each offset gives that value again.
   */
  lemma SectionRoundTrip(title: string, bs: seq<nat>)
    requires AllBytes(bs) && |bs| > 0
    ensures ParseTable(Listing(title, bs)).Ok?
    ensures var bank := RegMap(ParseTable(Listing(title, bs)).value);
      |bank.data| == |bs| && forall k :: 0 <= k < |bs| ==> bank.Read8(k) == Ok(bs[k])
  {
    SectionTokens(title, bs);
    HexBytesParse(bs);
    ReadsBack(bs, ParseTokens(HexBytes(bs)).value);
  }

  /** A row with no bytes has an empty piece. */
  lemma EmptyRowPiece()
    ensures Piece(Row([])) == ""
  {
    var row := Row([]);
    assert row == "00 | ";
    assert IndexOf(row, '|') == Some(3);
    assert row[4..] == " ";
    assert TrimStart(" ") == "";
  }

  /** A section whose row lists no bytes fails on the empty token: it is never an empty bank. */
  lemma EmptySectionFails(title: string)
    ensures ParseTable(Listing(title, [])) == Err(BadToken(""))
  {
    SectionHyphen(title, []);
    SectionLines(title, []);
    FlattenedAfterBlank(Row([]));
    EmptyRowPiece();
    EmptyTableFails(Listing(title, []), |title| + 4);
  }
}
