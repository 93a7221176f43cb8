/** The comma-separated dialect: its character automaton, its writer, and exactly which rows survive both. */
module Csv {
  import opened Words

  const QUOTE: Byte := 34
  const COMMA: Byte := 44
  const NEWLINE: Byte := 10

  // The fields of one line of the table.
  type Cells = seq<Bytes>

  // A row that was read: its fields, whether the end of the file ended it, and the bytes after it.
  datatype RowRead = RowRead(cells: Cells, eof: bool, rest: Bytes)

  // The automaton from the middle of a field that so far reads `s`. None is the exception for a quote left open.
  function ParseRow(bs: Bytes, quoted: bool, s: Bytes): (r: Option<RowRead>)
    ensures r.Some? ==> |r.value.cells| > 0 && |r.value.rest| <= |bs|
    ensures r.Some? && !r.value.eof ==> |r.value.rest| < |bs|
    decreases |bs|
  {
    if |bs| == 0 then (if quoted then None else Some(RowRead([s], true, [])))
    else if quoted then
      if bs[0] == QUOTE then ParseRow(bs[1..], false, s) else ParseRow(bs[1..], true, s + [bs[0]])
    else if bs[0] == QUOTE then ParseRow(bs[1..], true, s)
    else if bs[0] == COMMA then
      match ParseRow(bs[1..], false, [])
      case None => None
      case Some(r) => Some(r.(cells := [s] + r.cells))
    else if bs[0] == NEWLINE then Some(RowRead([s], false, bs[1..]))
    else ParseRow(bs[1..], false, s + [bs[0]])
  }

  // ------------------------------------------------------------------- writing

  function FieldBytes(v: Bytes): Bytes {
    if COMMA in v then [QUOTE] + v + [QUOTE] else v
  }

  function RowBytes(cells: Cells): Bytes {
    if |cells| == 0 then [NEWLINE]
    else FieldBytes(cells[0]) + (if |cells| == 1 then [NEWLINE] else [COMMA] + RowBytes(cells[1..]))
  }

  function TableBytes(rows: seq<Cells>): Bytes {
    if |rows| == 0 then [] else RowBytes(rows[0]) + TableBytes(rows[1..])
  }

  // No quote in the field, and a newline only where a comma has it quoted.
  predicate Plain(v: Bytes) {
    QUOTE !in v && (NEWLINE in v ==> COMMA in v)
  }

  predicate PlainRow(cells: Cells) {
    forall c :: 0 <= c < |cells| ==> Plain(cells[c])
  }

  // ---------------------------------------------------------- fields are read back

  // Inside quotes everything but a quote is taken as it is.
  lemma {:induction false} QuotedTaken(v: Bytes, s: Bytes, rest: Bytes)
    requires QUOTE !in v
    ensures ParseRow(v + rest, true, s) == ParseRow(rest, true, s + v)
  {
    if |v| == 0 {
      assert v + rest == rest && s + v == s;
    } else {
      assert (v + rest)[0] == v[0] && (v + rest)[1..] == v[1..] + rest;
      QuotedTaken(v[1..], s + [v[0]], rest);
      assert s + [v[0]] + v[1..] == s + v;
    }
  }

  // Outside quotes everything but the three special characters is.
  lemma {:induction false} UnquotedTaken(v: Bytes, s: Bytes, rest: Bytes)
    requires QUOTE !in v && COMMA !in v && NEWLINE !in v
    ensures ParseRow(v + rest, false, s) == ParseRow(rest, false, s + v)
  {
    if |v| == 0 {
      assert v + rest == rest && s + v == s;
    } else {
      assert (v + rest)[0] == v[0] && (v + rest)[1..] == v[1..] + rest;
      assert v[0] in v;
      UnquotedTaken(v[1..], s + [v[0]], rest);
      assert s + [v[0]] + v[1..] == s + v;
    }
  }

  lemma QuoteToggles(rest: Bytes, quoted: bool, s: Bytes)
    ensures ParseRow([QUOTE] + rest, quoted, s) == ParseRow(rest, !quoted, s)
  {
    assert ([QUOTE] + rest)[1..] == rest;
  }

  lemma FieldTaken(v: Bytes, rest: Bytes)
    requires Plain(v)
    ensures ParseRow(FieldBytes(v) + rest, false, []) == ParseRow(rest, false, v)
  {
    hide ParseRow;
    assert [] + v == v;
    if COMMA in v {
      assert FieldBytes(v) + rest == [QUOTE] + (v + ([QUOTE] + rest));
      QuoteToggles(v + ([QUOTE] + rest), false, []);
      QuotedTaken(v, [], [QUOTE] + rest);
      QuoteToggles(rest, true, v);
    } else {
      UnquotedTaken(v, [], rest);
    }
  }

  // A row of plain fields is read back, whatever follows it.
  lemma {:induction false} RowReadBack(cells: Cells, rest: Bytes)
    requires |cells| > 0 && PlainRow(cells)
    ensures ParseRow(RowBytes(cells) + rest, false, []) == Some(RowRead(cells, false, rest))
  {
    var v := cells[0];
    if |cells| == 1 {
      ConcatAssociates(FieldBytes(v), [NEWLINE], rest);
      FieldTaken(v, [NEWLINE] + rest);
      assert ([NEWLINE] + rest)[1..] == rest;
      assert cells == [v];
    } else {
      var others := RowBytes(cells[1..]);
      ConcatAssociates(FieldBytes(v), [COMMA] + others, rest);
      ConcatAssociates([COMMA], others, rest);
      FieldTaken(v, [COMMA] + (others + rest));
      assert ([COMMA] + (others + rest))[1..] == others + rest;
      RowReadBack(cells[1..], rest);
      assert cells == [v] + cells[1..];
    }
  }

  // ------------------------------------------------------------ others are not

  // No field that is read contains a quote.
  lemma {:induction false} ReadsNoQuotes(bs: Bytes, quoted: bool, s: Bytes)
    requires QUOTE !in s
    ensures var r := ParseRow(bs, quoted, s);
            r.Some? ==> forall c :: 0 <= c < |r.value.cells| ==> QUOTE !in r.value.cells[c]
    decreases |bs|
  {
    if |bs| > 0 {
      if bs[0] == QUOTE {
        ReadsNoQuotes(bs[1..], !quoted, s);
      } else if !quoted && bs[0] == COMMA {
        ReadsNoQuotes(bs[1..], false, []);
      } else {
        ReadsNoQuotes(bs[1..], quoted, s + [bs[0]]);
      }
    }
  }

  // A bare newline ends the row in the middle of the field.
  lemma {:induction false} BareNewlineCuts(v: Bytes, s: Bytes, rest: Bytes)
    requires QUOTE !in v && COMMA !in v && NEWLINE in v
    ensures var r := ParseRow(v + rest, false, s);
            r.Some? && |r.value.cells| == 1 && |r.value.cells[0]| < |s| + |v| && !r.value.eof
  {
    assert (v + rest)[0] == v[0] && (v + rest)[1..] == v[1..] + rest;
    assert v[0] in v;
    if v[0] != NEWLINE {
      BareNewlineCuts(v[1..], s + [v[0]], rest);
    }
  }

  // A row with a field that is not plain is not read back.
  lemma {:induction false} RowNotReadBack(cells: Cells, rest: Bytes, n: nat)
    requires |cells| == n > 0 && !PlainRow(cells)
    ensures var r := ParseRow(RowBytes(cells) + rest, false, []);
            r.Some? ==> |r.value.cells| < n || r.value.cells[..n] != cells
  {
    var bs, v := RowBytes(cells) + rest, cells[0];
    ReadsNoQuotes(bs, false, []);
    if exists c :: 0 <= c < n && QUOTE in cells[c] {
      var c :| 0 <= c < n && QUOTE in cells[c];
      var r := ParseRow(bs, false, []);
      if r.Some? && |r.value.cells| >= n {
        assert r.value.cells[..n][c] != cells[c];
      }
    } else {
      NewlineSplitsRow(cells, rest, n);
    }
  }

  lemma {:induction false} NewlineSplitsRow(cells: Cells, rest: Bytes, n: nat)
    requires |cells| == n > 0 && !PlainRow(cells) && forall c :: 0 <= c < n ==> QUOTE !in cells[c]
    ensures var r := ParseRow(RowBytes(cells) + rest, false, []);
            r.Some? && (|r.value.cells| < n || r.value.cells[..n] != cells)
  {
    var v := cells[0];
    var tail := if n == 1 then [NEWLINE] else [COMMA] + RowBytes(cells[1..]);
    ConcatAssociates(FieldBytes(v), tail, rest);
    if Plain(v) {
      var others := RowBytes(cells[1..]);
      FieldTaken(v, tail + rest);
      ConcatAssociates([COMMA], others, rest);
      assert ([COMMA] + (others + rest))[1..] == others + rest;
      NewlineSplitsRow(cells[1..], rest, n - 1);
      var inner := ParseRow(others + rest, false, []).value.cells;
      if |inner| >= n - 1 {
        assert ([v] + inner)[..n] == [v] + inner[..n - 1];
        assert cells == [v] + cells[1..];
      }
    } else {
      BareNewlineCuts(v, [], tail + rest);
    }
  }

  // ------------------------------------------------------- what is written and read

  // A row is its fields, those with a comma in quotes, with commas between them and a line feed behind.
  lemma RowIs(first: Bytes, others: Cells)
    ensures var field := if 44 in first then [34] + first + [34] else first;
      && RowBytes([first]) == field + [10]
      && (others != [] ==> RowBytes([first] + others) == field + [44] + RowBytes(others))
  {
    assert ([first] + others)[1..] == others;
    if others != [] {
      ConcatAssociates(FieldBytes(first), [44], RowBytes(others));
    }
  }

  // The end of the file ends a row as a newline does.
  lemma {:induction false} LastRowReadBack(cells: Cells, bs: Bytes)
    requires |cells| > 0 && PlainRow(cells) && bs + [NEWLINE] == RowBytes(cells)
    ensures ParseRow(bs, false, []) == Some(RowRead(cells, true, []))
  {
    hide FieldBytes, Plain;
    var v := cells[0];
    if |cells| == 1 {
      SameFront(bs, FieldBytes(v));
      FieldTaken(v, []);
      assert FieldBytes(v) + [] == bs;
      assert cells == [v];
    } else {
      var others := RowBytes(cells[1..]);
      RowEnds(cells[1..]);
      var front := others[..|others| - 1];
      assert FieldBytes(v) + ([COMMA] + others) == (FieldBytes(v) + ([COMMA] + front)) + [NEWLINE];
      SameFront(bs, FieldBytes(v) + ([COMMA] + front));
      FieldTaken(v, [COMMA] + front);
      assert ([COMMA] + front)[1..] == front;
      LastRowReadBack(cells[1..], front);
      assert cells == [v] + cells[1..];
    }
  }

  lemma SameFront(a: Bytes, b: Bytes)
    requires a + [NEWLINE] == b + [NEWLINE]
    ensures a == b
  {
    assert |a + [NEWLINE]| == |b + [NEWLINE]|;
    assert a == (a + [NEWLINE])[..|a|] && b == (b + [NEWLINE])[..|b|];
  }

  // A row ends in its newline.
  lemma {:induction false} RowEnds(cells: Cells)
    ensures var bs := RowBytes(cells); |bs| > 0 && bs[..|bs| - 1] + [NEWLINE] == bs
  {
    if |cells| > 1 {
      RowEnds(cells[1..]);
      var others := RowBytes(cells[1..]);
      assert RowBytes(cells) == FieldBytes(cells[0]) + [COMMA] + others[..|others| - 1] + [NEWLINE];
    }
  }

  // A quote that is not closed before the end of the file is an exception.
  lemma OpenQuote(v: Bytes, s: Bytes)
    requires QUOTE !in v
    ensures ParseRow([QUOTE] + v, false, s) == None
  {
    QuoteToggles(v, false, s);
    QuotedTaken(v, s, []);
    assert v + [] == v;
  }
}
