/**
 * `List<String>.flatten` and `process_table`: from the text of one register
 * section to the bytes of its bank.
 */
module Table {
  import opened Results
  import opened Text
  import opened Hex
  import opened RegMaps

  /** Why `process_table` throws. */
  datatype TableError =
    | NoHyphen                // `findLastAnyOf(setOf("-"))!!` on a section with no hyphen
    | BadToken(token: string) // `Integer.parseInt(token, 16)` rejected a token

  /** What one line contributes to `flatten`: the text after its first `|`, trimmed. */
  function Piece(line: string): string
  {
    Trim(SubstringAfter(line, '|'))
  }

  /** The pieces of all lines, in order. */
  function Pieces(lines: seq<string>): (r: seq<string>)
    ensures |r| == |lines|
  {
    if |lines| == 0 then [] else Pieces(lines[..|lines| - 1]) + [Piece(lines[|lines| - 1])]
  }

  lemma PiecesAppend(lines: seq<string>, i: nat)
    requires i < |lines|
    ensures Pieces(lines[..i + 1]) == Pieces(lines[..i]) + [Piece(lines[i])]
  {
    assert lines[..i + 1][..i] == lines[..i];
  }

  /** The piece at each position is that line's piece. */
  lemma {:induction false} PiecesAt(lines: seq<string>, k: nat)
    requires k < |lines|
    ensures Pieces(lines)[k] == Piece(lines[k])
    decreases |lines|
  {
    var init, last := lines[..|lines| - 1], Piece(lines[|lines| - 1]);
    var p := Pieces(init);
    assert Pieces(lines) == p + [last];
    if k < |init| {
      PiecesAt(init, k);
      assert init[k] == lines[k];
      assert (p + [last])[k] == p[k];
    } else {
      assert (p + [last])[|p|] == last;
    }
  }

  /**
   * What `flatten` returns: every line's piece, joined by exactly one space,
   * with the whole trimmed.
   */
  function Flattened(lines: seq<string>): string
  {
    Trim(Join(Pieces(lines), ' '))
  }

  /** `flatten`'s result has no whitespace at either end. */
  lemma FlattenedEnds(lines: seq<string>)
    ensures var f := Flattened(lines);
      f == [] || (!IsWhitespace(f[0]) && !IsWhitespace(f[|f| - 1]))
  {
    TrimEnds(Join(Pieces(lines), ' '));
  }

  /** Every piece followed by one space, as `flatten` accumulates them before its final trim. */
  function Spaced(ts: seq<string>): string
  {
    if |ts| == 0 then "" else Spaced(ts[..|ts| - 1]) + (ts[|ts| - 1] + " ")
  }

  /** The accumulated text is the join of the pieces with one trailing space. */
  lemma {:induction false} SpacedJoin(ts: seq<string>)
    requires |ts| >= 1
    ensures Spaced(ts) == Join(ts, ' ') + " "
    decreases |ts|
  {
    var init, last := ts[..|ts| - 1], ts[|ts| - 1];
    if |ts| > 1 {
      SpacedJoin(init);
      JoinAppend(init, last, ' ');
      assert init + [last] == ts;
      assert (Join(init, ' ') + " ") + (last + " ") == (Join(init, ' ') + [' '] + last) + " ";
    }
  }

  /** One more line adds its piece and a space to the accumulated text. */
  lemma SpacedStep(lines: seq<string>, i: nat)
    requires i < |lines|
    ensures Spaced(Pieces(lines[..i + 1])) == Spaced(Pieces(lines[..i])) + (Piece(lines[i]) + " ")
  {
    PiecesAppend(lines, i);
    var ps := Pieces(lines[..i + 1]);
    assert ps[..|ps| - 1] == Pieces(lines[..i]);
  }

  /** `List<String>.flatten()`: accumulates `piece + " "` per line, then trims. */
  method Flatten(lines: seq<string>) returns (flat: string)
    ensures flat == Flattened(lines)
  {
    flat := "";
    for i := 0 to |lines|
      invariant flat == Spaced(Pieces(lines[..i]))
    {
      SpacedStep(lines, i);
      flat := flat + (Trim(SubstringAfter(lines[i], '|')) + " ");
    }
    assert lines[..|lines|] == lines;
    if |lines| > 0 {
      SpacedJoin(Pieces(lines));
      TrimAppendSpace(Join(Pieces(lines), ' '));
    }
    flat := Trim(flat);
  }

  /**
   * The tokens `process_table` parses: the text after the last hyphen, split
   * into lines, flattened, split on single spaces. `None` when there is no
   * hyphen.
   */
  function RawValues(blob: string): Option<seq<string>>
  {
    match LastIndexOf(blob, '-')
    case None => None
    case Some(i) => Some(Split(Flattened(Split(blob[i + 1..], '\n')), ' '))
  }

  lemma RawValuesAfter(blob: string, i: nat, flat: string)
    requires LastIndexOf(blob, '-') == Some(i)
    requires flat == Flattened(Split(blob[i + 1..], '\n'))
    ensures RawValues(blob) == Some(Split(flat, ' '))
  {
  }

  lemma ParseTableAfter(blob: string, i: nat, flat: string)
    requires LastIndexOf(blob, '-') == Some(i)
    requires flat == Flattened(Split(blob[i + 1..], '\n'))
    ensures ParseTable(blob) == ParseTokens(Split(flat, ' '))
  {
    RawValuesAfter(blob, i, flat);
  }

  /** Parses every token to a byte, failing at the first token that is not hex. */
  function ParseTokens(tokens: seq<string>): Result<seq<SByte>, TableError>
  {
    if |tokens| == 0 then Ok([])
    else
      match ParseTokens(tokens[..|tokens| - 1])
      case Err(e) => Err(e)
      case Ok(bytes) =>
        match ParseInt(tokens[|tokens| - 1])
        case None => Err(BadToken(tokens[|tokens| - 1]))
        case Some(v) => Ok(bytes + [ToByte(v)])
  }

  /** What `process_table` returns, or the exception it throws. */
  function ParseTable(blob: string): Result<seq<SByte>, TableError>
  {
    match RawValues(blob)
    case None => Err(NoHyphen)
    case Some(tokens) => ParseTokens(tokens)
  }

  /** One more token on a prefix that parsed. */
  lemma ParseTokensStep(tokens: seq<string>, i: nat, bytes: seq<SByte>)
    requires i < |tokens| && ParseTokens(tokens[..i]) == Ok(bytes)
    ensures ParseTokens(tokens[..i + 1]) == match ParseInt(tokens[i])
      case None => Err(BadToken(tokens[i]))
      case Some(v) => Ok(bytes + [ToByte(v)])
  {
    assert tokens[..i + 1][..i] == tokens[..i];
  }

  /** Once a prefix of the tokens fails, the whole list fails with the same error. */
  lemma {:induction false} ParseTokensErrPersists(tokens: seq<string>, n: nat)
    requires n <= |tokens| && ParseTokens(tokens[..n]).Err?
    ensures ParseTokens(tokens) == ParseTokens(tokens[..n])
    decreases |tokens| - n
  {
    if n < |tokens| {
      assert tokens[..n + 1][..n] == tokens[..n];
      ParseTokensErrPersists(tokens, n + 1);
    } else {
      assert tokens[..n] == tokens;
    }
  }

  /** The tokens parse exactly when every one of them is a hex number. */
  lemma {:induction false} ParseTokensOk(tokens: seq<string>)
    ensures ParseTokens(tokens).Ok? <==> forall k :: 0 <= k < |tokens| ==> ParseInt(tokens[k]).Some?
    decreases |tokens|
  {
    if |tokens| > 0 {
      var n := |tokens| - 1;
      var init := tokens[..n];
      ParseTokensOk(init);
      assert forall k :: 0 <= k < n ==> init[k] == tokens[k];
      if ParseTokens(init).Err? {
        var k :| 0 <= k < n && ParseInt(init[k]).None?;
        assert ParseInt(tokens[k]).None?;
      }
    }
  }

  /**
   * Parsed tokens give one byte per token, each the token's value truncated
   * by `toByte()`.
   */
  lemma {:induction false} ParseTokensValues(tokens: seq<string>)
    requires ParseTokens(tokens).Ok?
    ensures |ParseTokens(tokens).value| == |tokens|
    ensures forall k :: 0 <= k < |tokens| ==>
      ParseInt(tokens[k]).Some? && ParseTokens(tokens).value[k] == ToByte(ParseInt(tokens[k]).value)
    decreases |tokens|
  {
    if |tokens| > 0 {
      var n := |tokens| - 1;
      var init := tokens[..n];
      ParseTokensValues(init);
      var bytes := ParseTokens(init).value;
      var v := ParseInt(tokens[n]).value;
      assert ParseTokens(tokens).value == bytes + [ToByte(v)];
      assert forall k :: 0 <= k < n ==> init[k] == tokens[k];
    }
  }

  /** A failure names a token that does not parse. */
  lemma {:induction false} ParseTokensErr(tokens: seq<string>)
    ensures ParseTokens(tokens).Err? ==>
      exists k :: 0 <= k < |tokens| && ParseInt(tokens[k]).None? && ParseTokens(tokens) == Err(BadToken(tokens[k]))
    decreases |tokens|
  {
    if |tokens| > 0 {
      var n := |tokens| - 1;
      var init := tokens[..n];
      ParseTokensErr(init);
      if ParseTokens(init).Err? {
        var k :| 0 <= k < n && ParseInt(init[k]).None? && ParseTokens(init) == Err(BadToken(init[k]));
        assert init[k] == tokens[k];
      }
    }
  }

  /** The token named is the first one that does not parse. */
  lemma FirstBadToken(tokens: seq<string>, k: nat)
    requires k < |tokens| && ParseInt(tokens[k]).None?
    requires forall j :: 0 <= j < k ==> ParseInt(tokens[j]).Some?
    ensures ParseTokens(tokens) == Err(BadToken(tokens[k]))
  {
    var prefix := tokens[..k];
    ParseTokensOk(prefix);
    assert forall j :: 0 <= j < k ==> prefix[j] == tokens[j];
    ParseTokensStep(tokens, k, ParseTokens(prefix).value);
    ParseTokensErrPersists(tokens, k + 1);
  }

  /** `process_table` throws on the missing hyphen exactly when the section has none. */
  lemma NoHyphenIff(blob: string)
    ensures ParseTable(blob) == Err(NoHyphen) <==> '-' !in blob
  {
    match RawValues(blob)
    case None =>
    case Some(tokens) =>
      ParseTokensErr(tokens);
  }

  /**
   * A table that parses is never empty: splitting on spaces yields at least
   * one token, even for an empty table.
   */
  lemma ParsedTableNotEmpty(blob: string)
    ensures ParseTable(blob).Ok? ==> '-' in blob && |ParseTable(blob).value| > 0
  {
    match RawValues(blob)
    case None =>
    case Some(tokens) =>
      if ParseTokens(tokens).Ok? {
        ParseTokensValues(tokens);
      }
  }

  /**
   * A table with nothing after its last hyphen fails on the empty token
   * rather than giving an empty bank.
   */
  lemma EmptyTableFails(blob: string, i: nat)
    requires LastIndexOf(blob, '-') == Some(i)
    requires Flattened(Split(blob[i + 1..], '\n')) == ""
    ensures ParseTable(blob) == Err(BadToken(""))
  {
    ParseTableAfter(blob, i, "");
    assert Split("", ' ') == [""];
    FirstBadToken([""], 0);
  }

  /** When the first and last lines have pieces, `flatten`'s final trim removes nothing. */
  lemma FlattenedIsJoin(lines: seq<string>)
    requires |lines| >= 1 && Piece(lines[0]) != "" && Piece(lines[|lines| - 1]) != ""
    ensures Flattened(lines) == Join(Pieces(lines), ' ')
  {
    var pieces := Pieces(lines);
    var first, last := Piece(lines[0]), Piece(lines[|lines| - 1]);
    PiecesAt(lines, 0);
    PiecesAt(lines, |lines| - 1);
    TrimEnds(SubstringAfter(lines[0], '|'));
    TrimEnds(SubstringAfter(lines[|lines| - 1], '|'));
    var joined := Join(pieces, ' ');
    JoinEnds(pieces, ' ');
    assert joined[0] == first[0] && joined[|joined| - 1] == last[|last| - 1];
    TrimUnchanged(joined);
  }

  /** A blank line before a single row leaves just that row's piece. */
  lemma FlattenedAfterBlank(line: string)
    ensures Flattened(["", line]) == Piece(line)
  {
    var p := Piece(line);
    assert ["", line][..1] == [""];
    assert Piece("") == "";
    assert Pieces(["", line]) == ["", p];
    assert Join(["", p], ' ') == " " + p;
    TrimLeadingSpace(p);
    TrimEnds(SubstringAfter(line, '|'));
    TrimUnchanged(p);
  }

  /**
   * An empty piece with non-empty pieces on both sides leaves two spaces in a
   * row in the flattened text, so splitting it on spaces gives an empty token.
   */
  lemma FlattenedBlankToken(lines: seq<string>, j: nat, k: nat, l: nat)
    requires j < k < l < |lines| && Piece(lines[j]) != "" && Piece(lines[k]) == "" && Piece(lines[l]) != ""
    ensures "" in Split(Flattened(lines), ' ')
  {
    PiecesAt(lines, j);
    PiecesAt(lines, k);
    PiecesAt(lines, l);
    TrimEnds(SubstringAfter(lines[j], '|'));
    TrimEnds(SubstringAfter(lines[l], '|'));
    JoinBlankToken(Pieces(lines), j, k, l);
  }

  /**
   * A blank line between two rows of a table becomes an empty token (two
   * spaces in a row survive `flatten`'s trim), so the table fails to parse.
   */
  lemma BlankRowFails(blob: string, i: nat, k: nat)
    requires LastIndexOf(blob, '-') == Some(i)
    requires var lines := Split(blob[i + 1..], '\n');
      k < |lines| && Piece(lines[k]) == ""
      && exists j, l :: 0 <= j < k < l < |lines| && Piece(lines[j]) != "" && Piece(lines[l]) != ""
    ensures ParseTable(blob).Err?
  {
    var lines := Split(blob[i + 1..], '\n');
    var j, l :| 0 <= j < k < l < |lines| && Piece(lines[j]) != "" && Piece(lines[l]) != "";
    FlattenedBlankToken(lines, j, k, l);
    var flat := Flattened(lines);
    ParseTableAfter(blob, i, flat);
    var tokens := Split(flat, ' ');
    var e :| 0 <= e < |tokens| && tokens[e] == "";
    ParseTokensOk(tokens);
    assert ParseInt(tokens[e]).None?;
  }

  /** The lines after the hyphens of a section with a blank line between two rows. */
  lemma BlankRowLines(row1: string, row2: string)
    requires '\n' !in row1 && '\n' !in row2
    ensures Split("\n" + row1 + "\n\n" + row2, '\n') == ["", row1, "", row2]
  {
    SplitNoDelimiter(row1, '\n');
    SplitNoDelimiter(row2, '\n');
    assert Split("", '\n') == [""];
    SplitAround("", row2, '\n');
    assert "" + ['\n'] + row2 == "\n" + row2;
    SplitAround(row1, "\n" + row2, '\n');
    assert row1 + ['\n'] + ("\n" + row2) == row1 + "\n\n" + row2;
    SplitAround("", row1 + "\n\n" + row2, '\n');
    assert "" + ['\n'] + (row1 + "\n\n" + row2) == "\n" + row1 + "\n\n" + row2;
  }

  /** The last `-` of a section titled `t` ends its hyphen line, and the rows follow it. */
  lemma HyphenLineEnd(tail: string)
    requires '-' !in tail
    ensures LastIndexOf("t\n--" + tail, '-') == Some(3)
    ensures ("t\n--" + tail)[3 + 1..] == tail
  {
    LastIndexOfAppend("t\n--", tail, '-');
    assert LastIndexOf("t\n--", '-') == Some(3);
  }

  /** A section whose lines after the last hyphen are a blank, a row, a blank and a row fails. */
  lemma BlankRowAfterHyphen(blob: string, i: nat, row1: string, row2: string)
    requires LastIndexOf(blob, '-') == Some(i)
    requires Split(blob[i + 1..], '\n') == ["", row1, "", row2]
    requires Piece(row1) != "" && Piece(row2) != ""
    ensures ParseTable(blob).Err?
  {
    var lines := Split(blob[i + 1..], '\n');
    assert lines[1] == row1 && lines[2] == "" && lines[3] == row2;
    assert Piece("") == "";
    BlankRowFails(blob, i, 2);
  }

  /** The shape of a real section: a blank line after the hyphens, a row, a blank line, a row. */
  lemma BlankRowInSection(row1: string, row2: string)
    requires '-' !in row1 && '-' !in row2 && '\n' !in row1 && '\n' !in row2
    requires Piece(row1) != "" && Piece(row2) != ""
    ensures ParseTable("t\n--\n" + row1 + "\n\n" + row2).Err?
  {
    var tail := "\n" + row1 + "\n\n" + row2;
    var blob := "t\n--" + tail;
    assert blob == "t\n--\n" + row1 + "\n\n" + row2;
    HyphenLineEnd(tail);
    BlankRowLines(row1, row2);
    BlankRowAfterHyphen(blob, 3, row1, row2);
  }

  /**
   * The indexed loop of `process_table`: a `ByteArray` as long as the token
   * list, each slot set to its token parsed as hex and truncated by
   * `toByte()`; the first token that does not parse aborts the loop.
   */
  method FillBytes(rawValues: seq<string>) returns (r: Result<seq<SByte>, TableError>)
    ensures r == ParseTokens(rawValues)
  {
    var data := new SByte[|rawValues|];
    for index := 0 to |rawValues|
      invariant ParseTokens(rawValues[..index]) == Ok(data[..index])
    {
      var value := ParseInt(rawValues[index]);
      ParseTokensStep(rawValues, index, data[..index]);
      if value.None? {
        ParseTokensErrPersists(rawValues, index + 1);
        return Err(BadToken(rawValues[index]));
      }
      data[index] := ToByte(value.value);
      assert data[..index + 1] == data[..index] + [ToByte(value.value)];
    }
    assert rawValues[..|rawValues|] == rawValues;
    assert data[..data.Length] == data[..];
    return Ok(data[..]);
  }

  /**
   * The first half of `process_table`: the text after the hyphen at `i`,
   * split into lines, flattened and split on single spaces.
   */
  method TableTokens(blob: string, i: nat) returns (rawValues: seq<string>)
    requires LastIndexOf(blob, '-') == Some(i)
    ensures RawValues(blob) == Some(rawValues)
  {
    var flat := Flatten(Split(blob[i + 1..], '\n'));
    rawValues := Split(flat, ' ');
    RawValuesAfter(blob, i, flat);
  }

  /**
   * `process_table`: everything after the last hyphen, split into lines,
   * flattened, split on single spaces, and parsed token by token.
   */
  method ProcessTable(blob: string) returns (r: Result<seq<SByte>, TableError>)
    ensures r == ParseTable(blob)
  {
    var hyphen := LastIndexOf(blob, '-');
    if hyphen.None? {
      return Err(NoHyphen);
    }
    var rawValues := TableTokens(blob, hyphen.value);
    r := FillBytes(rawValues);
  }
}
