/** Reading a hexdump back: every line of the dump parses back to the row it shows, and
    the rows with the end offset rebuild the buffer, so the dump loses nothing. */
module HexUndump {
  import opened Bytes
  import opened HexLines

  // ---------------------------------------------------------------------------------------
  // Where things sit in a line

  /** Where part p starts in Concat(parts). */
  function PartStart(parts: seq<string>, p: nat): nat
    requires p <= |parts|
    decreases p
  {
    if p == 0 then 0 else |parts[0]| + PartStart(parts[1..], p - 1)
  }

  /** Character i of part p sits at its start plus i in the concatenation. */
  lemma {:induction false} ConcatAt(parts: seq<string>, p: nat, i: nat)
    requires p < |parts| && i < |parts[p]|
    ensures PartStart(parts, p) + i < |Concat(parts)|
    ensures Concat(parts)[PartStart(parts, p) + i] == parts[p][i]
    decreases p
  {
    if p > 0 {
      ConcatAt(parts[1..], p - 1, i);
    }
  }

  /** Where the two digits of byte j of a row start in its columns: after two spaces in
      the first hex column, after 27 more characters in the second. */
  function ByteColumn(j: nat): nat {
    if j < 8 then 2 + 3 * j else 3 + 3 * j
  }

  /** The parts Columns joins, for a row of at most 16 bytes. */
  function ColumnParts(bs: seq<byte>): seq<string> {
    ["  ", PadRight(HexJoin(bs[..Half(bs)]), 23), "  ",
     PadRight(HexJoin(bs[Half(bs)..]), 23), "  |", PadRight(Text(bs), 16), "|"]
  }

  /** The first hex column starts at character 2 and the second at 27. */
  lemma ColumnStarts(bs: seq<byte>)
    requires |bs| <= 16
    ensures Columns(bs) == Concat(ColumnParts(bs))
    ensures PartStart(ColumnParts(bs), 1) == 2 && PartStart(ColumnParts(bs), 3) == 27
  {
    var parts := ColumnParts(bs);
    assert |HexJoin(bs[..Half(bs)])| <= 23;
    assert parts[1..][1..][1..] == parts[3..];
  }

  /** The bytes of the hex column that byte j of a row falls in. */
  function ColumnBytes(bs: seq<byte>, j: nat): seq<byte> {
    if j < 8 then bs[..Half(bs)] else bs[Half(bs)..]
  }

  /** Where byte j of a row starts within its hex column. */
  function InColumn(j: nat): nat {
    if j < 8 then 3 * j else 3 * (j - 8)
  }

  /** The two characters at ByteColumn(j) of the columns are those at InColumn(j) of the
      padded hex column of byte j. */
  lemma ColumnsPlace(bs: seq<byte>, j: nat)
    requires |bs| <= 16 && j < 16
    ensures ByteColumn(j) + 1 < |Columns(bs)|
    ensures Columns(bs)[ByteColumn(j)] == PadRight(HexJoin(ColumnBytes(bs, j)), 23)[InColumn(j)]
    ensures Columns(bs)[ByteColumn(j) + 1] == PadRight(HexJoin(ColumnBytes(bs, j)), 23)[InColumn(j) + 1]
  {
    var parts := ColumnParts(bs);
    ColumnStarts(bs);
    var p := if j < 8 then 1 else 3;
    assert parts[p] == PadRight(HexJoin(ColumnBytes(bs, j)), 23);
    ConcatAt(parts, p, InColumn(j));
    ConcatAt(parts, p, InColumn(j) + 1);
  }

  /** Byte j of a row shows as its two hex digits at ByteColumn(j) of the columns. */
  lemma ColumnsHex(bs: seq<byte>, j: nat)
    requires j < |bs| <= 16
    ensures ByteColumn(j) + 1 < |Columns(bs)|
    ensures Columns(bs)[ByteColumn(j)] == Hex2(bs[j])[0] && Columns(bs)[ByteColumn(j) + 1] == Hex2(bs[j])[1]
  {
    ColumnsPlace(bs, j);
    var q := ColumnIndex(bs, j);
    PaddedHex(ColumnBytes(bs, j), q);
  }

  /** Byte j of a row is byte q of its hex column, which starts at 3q there. */
  lemma ColumnIndex(bs: seq<byte>, j: nat) returns (q: nat)
    requires j < |bs| <= 16
    ensures q < |ColumnBytes(bs, j)| <= 8 && ColumnBytes(bs, j)[q] == bs[j] && InColumn(j) == 3 * q
  {
    q := if j < 8 then j else j - 8;
  }

  /** In a padded hex column of at most 8 bytes, byte q shows at 3q and 3q + 1. */
  lemma PaddedHex(h: seq<byte>, q: nat)
    requires q < |h| <= 8
    ensures PadRight(HexJoin(h), 23)[3 * q] == Hex2(h[q])[0] && PadRight(HexJoin(h), 23)[3 * q + 1] == Hex2(h[q])[1]
  {
    PadRightAt(HexJoin(h), 23, 3 * q);
    PadRightAt(HexJoin(h), 23, 3 * q + 1);
    HexJoinAt(h, q);
  }

  /** Past the row's end, the place of byte j is blank. */
  lemma ColumnsBlank(bs: seq<byte>, j: nat)
    requires |bs| <= j < 16
    ensures ByteColumn(j) + 1 < |Columns(bs)| && Columns(bs)[ByteColumn(j)] == ' '
  {
    ColumnsPlace(bs, j);
    PadRightAt(HexJoin(ColumnBytes(bs, j)), 23, InColumn(j));
  }

  // ---------------------------------------------------------------------------------------
  // Parsing a line

  /** The byte written as the hex digits hi and lo. */
  function HexByte(hi: char, lo: char): (b: byte)
    ensures b == DigitValue(hi) * 16 + DigitValue(lo)
  {
    (DigitValue(hi) * 16 + DigitValue(lo)) as byte
  }

  /** The bytes of a row read off its columns from byte j on: a pair of digits at each
      byte's place, up to the first blank place or 16 bytes. */
  function ReadBytes(cols: string, j: nat): (bs: seq<byte>)
    ensures j <= 16 ==> j + |bs| <= 16
    decreases 16 - j
  {
    if j >= 16 || ByteColumn(j) + 1 >= |cols| || cols[ByteColumn(j)] == ' ' then []
    else [HexByte(cols[ByteColumn(j)], cols[ByteColumn(j) + 1])] + ReadBytes(cols, j + 1)
  }

  /** Two hex digits at the place of byte j read as that byte, and reading goes on. */
  lemma ReadHex(cols: string, j: nat, b: byte)
    requires j < 16 && ByteColumn(j) + 1 < |cols|
    requires cols[ByteColumn(j)] == Hex2(b)[0] && cols[ByteColumn(j) + 1] == Hex2(b)[1]
    ensures ReadBytes(cols, j) == [b] + ReadBytes(cols, j + 1)
  {
    assert cols[ByteColumn(j)] != ' ';
  }

  /** The columns of a row read back as its bytes. */
  lemma {:induction false} ReadColumns(bs: seq<byte>, j: nat)
    requires |bs| <= 16 && j <= |bs|
    ensures ReadBytes(Columns(bs), j) == bs[j..]
    decreases |bs| - j
  {
    if j < |bs| {
      ColumnsHex(bs, j);
      ReadHex(Columns(bs), j, bs[j]);
      ReadColumns(bs, j + 1);
      assert bs[j..] == [bs[j]] + bs[j + 1..];
    } else if j < 16 {
      ColumnsBlank(bs, j);
    }
  }

  /** The index of the first space in s, or |s| when it has none. */
  function FirstSpace(s: string): (w: nat)
    ensures w <= |s|
    decreases |s|
  {
    if s == [] || s[0] == ' ' then 0 else 1 + FirstSpace(s[1..])
  }

  /** Before text that starts with a space, a field without spaces ends at that space. */
  lemma {:induction false} FirstSpaceAfter(h: string, t: string)
    requires forall i :: 0 <= i < |h| ==> h[i] != ' '
    requires t != [] && t[0] == ' '
    ensures FirstSpace(h + t) == |h|
    decreases |h|
  {
    if h != [] {
      assert (h + t)[1..] == h[1..] + t;
      FirstSpaceAfter(h[1..], t);
    }
  }

  /** The offset field holds hex digits only. */
  lemma Hex8Digits(n: nat)
    ensures IsHexText(Hex8(n))
  {
    var h := Hex(n);
    if |h| < 8 {
      var z := ZeroDigits(8 - |h|);
      forall i | 0 <= i < |z + h|
        ensures '0' <= (z + h)[i] <= '9' || 'a' <= (z + h)[i] <= 'f'
      {
        if i >= |z| {
          assert (z + h)[i] == h[i - |z|];
        }
      }
    }
  }

  /** Reads a line of the dump back: "*" is a repeat, anything else an offset up to the
      first space and then the bytes in the columns after it. */
  function ParseRow(line: string): Row {
    if line == "*" then Star
    else
      var w := FirstSpace(line);
      Data(HexValue(line[..w]), ReadBytes(line[w..], 0))
  }

  /** Every line of a row of at most 16 bytes parses back to the offset and the bytes. */
  lemma ParseLine(o: nat, bs: seq<byte>)
    requires |bs| <= 16
    ensures ParseRow(Line(o, bs)) == Data(o, bs)
  {
    var h, cols := Hex8(o), Columns(bs);
    var line := h + cols;
    LineNotStar(o, bs);
    Hex8Digits(o);
    ColumnStarts(bs);
    ConcatAt(ColumnParts(bs), 0, 0);
    FirstSpaceAfter(h, cols);
    assert line[..|h|] == h && line[|h|..] == cols;
    Hex8RoundTrip(o);
    ReadColumns(bs, 0);
    assert bs[0..] == bs;
  }

  /** A row as the dump builds it: a line of at most 16 bytes, or a "*". */
  predicate Fits(r: Row) {
    r.Data? ==> |r.bytes| <= 16
  }

  lemma ParseRender(r: Row)
    requires Fits(r)
    ensures ParseRow(Render(r)) == r
  {
    if r.Data? {
      ParseLine(r.offset, r.bytes);
    }
  }

  // ---------------------------------------------------------------------------------------
  // Reading a whole dump back

  function Parsed(lines: seq<string>): (rows: seq<Row>)
    ensures |rows| == |lines|
  {
    seq(|lines|, i requires 0 <= i < |lines| => ParseRow(lines[i]))
  }

  /** The bytes a dump shows: the rows of all lines but the last, rebuilt up to the end
      offset that the last line holds. */
  function Undump(lines: seq<string>): seq<byte> {
    if lines == [] then [] else Restore(Parsed(lines[..|lines| - 1]), HexValue(lines[|lines| - 1]))
  }

  /** Line i of the rendered rows is the rendering of row i. */
  lemma {:induction false} RenderedAt(rows: seq<Row>, i: nat)
    requires i < |rows|
    ensures Rendered(rows)[i] == Render(rows[i])
    decreases |rows|
  {
    if i < |rows| - 1 {
      RenderedAt(rows[..|rows| - 1], i);
    }
  }

  lemma ParsedRendered(rows: seq<Row>)
    requires forall i :: 0 <= i < |rows| ==> Fits(rows[i])
    ensures Parsed(Rendered(rows)) == rows
  {
    forall i | 0 <= i < |rows|
      ensures Parsed(Rendered(rows))[i] == rows[i]
    {
      RenderedAt(rows, i);
      ParseRender(rows[i]);
    }
  }

  /** The dump rows of shaped rows are lines of at most 16 bytes, or "*". */
  lemma {:induction false} RowsFit(cs: seq<seq<byte>>, off: nat, n: nat)
    requires Shaped(cs) && n <= |cs|
    ensures forall i :: 0 <= i < |Rows(cs, off, n)| ==> Fits(Rows(cs, off, n)[i])
    decreases n
  {
    if n > 0 {
      RowsFit(cs, off, n - 1);
    }
  }

  /** Lines rendered from rows, followed by an end offset, read back as those rows rebuilt
      up to that offset. */
  lemma UndumpRows(rows: seq<Row>, end: nat)
    requires forall i :: 0 <= i < |rows| ==> Fits(rows[i])
    ensures Undump(Rendered(rows) + [Hex8(end)]) == Restore(rows, end)
  {
    var lines := Rendered(rows) + [Hex8(end)];
    assert lines[..|lines| - 1] == Rendered(rows);
    ParsedRendered(rows);
    Hex8RoundTrip(end);
  }

  /** Reading the dump of buf back gives buf. */
  lemma DumpRoundTrip(buf: seq<byte>, off: nat)
    ensures Undump(Dump(buf, off)) == buf
  {
    var cs := Chunks(buf);
    ChunksFlatten(buf);
    RowsFit(cs, off, |cs|);
    UndumpRows(Rows(cs, off, |cs|), off + |buf|);
    RowsRestore(buf, off);
  }

  // ---------------------------------------------------------------------------------------
  // The dump as one string

  ghost predicate NoNewline(s: string) {
    forall i :: 0 <= i < |s| ==> s[i] != '\n'
  }

  /** The lines of s: the pieces between newlines (s.split("\n")). */
  function SplitLines(s: string): (lines: seq<string>)
    ensures |lines| >= 1
    decreases |s|
  {
    if s == [] then [[]]
    else
      var rest := SplitLines(s[1..]);
      if s[0] == '\n' then [[]] + rest else [[s[0]] + rest[0]] + rest[1..]
  }

  /** Text without a newline is one line. */
  lemma {:induction false} SplitPlain(a: string)
    requires NoNewline(a)
    ensures SplitLines(a) == [a]
    decreases |a|
  {
    if a != [] {
      SplitPlain(a[1..]);
      assert [a[0]] + a[1..] == a;
    }
  }

  /** A line without a newline, a newline and the rest split as that line and the lines of
      the rest. */
  lemma {:induction false} SplitFirst(a: string, t: string)
    requires NoNewline(a)
    ensures SplitLines(a + "\n" + t) == [a] + SplitLines(t)
    decreases |a|
  {
    var s := a + "\n" + t;
    if a == [] {
      assert s[1..] == t;
    } else {
      assert s[1..] == a[1..] + "\n" + t;
      SplitFirst(a[1..], t);
      assert [a[0]] + a[1..] == a;
    }
  }

  /** Splitting joined lines gives them back, when none of them holds a newline. */
  lemma {:induction false} SplitJoin(lines: seq<string>)
    requires lines != [] && forall i :: 0 <= i < |lines| ==> NoNewline(lines[i])
    ensures SplitLines(JoinLines(lines)) == lines
    decreases |lines|
  {
    if |lines| == 1 {
      SplitPlain(lines[0]);
    } else {
      SplitJoin(lines[1..]);
      SplitFirst(lines[0], JoinLines(lines[1..]));
    }
  }

  lemma {:induction false} HexJoinPlain(bs: seq<byte>)
    ensures NoNewline(HexJoin(bs))
    decreases |bs|
  {
    if |bs| > 1 {
      HexJoinPlain(bs[1..]);
    }
  }

  lemma {:induction false} ConcatPlain(parts: seq<string>)
    requires forall p :: 0 <= p < |parts| ==> NoNewline(parts[p])
    ensures NoNewline(Concat(parts))
    decreases |parts|
  {
    if parts != [] {
      ConcatPlain(parts[1..]);
    }
  }

  /** No line of a dump holds a newline. */
  lemma LinePlain(o: nat, bs: seq<byte>)
    requires |bs| <= 16
    ensures NoNewline(Line(o, bs))
  {
    Hex8Digits(o);
    HexJoinPlain(bs[..Half(bs)]);
    HexJoinPlain(bs[Half(bs)..]);
    ColumnStarts(bs);
    ConcatPlain(ColumnParts(bs));
  }

  lemma DumpPlain(buf: seq<byte>, off: nat)
    ensures forall i :: 0 <= i < |Dump(buf, off)| ==> NoNewline(Dump(buf, off)[i])
  {
    var cs := Chunks(buf);
    var rows := Rows(cs, off, |cs|);
    ChunksFlatten(buf);
    RowsFit(cs, off, |cs|);
    forall i | 0 <= i < |rows|
      ensures NoNewline(Rendered(rows)[i])
    {
      RenderedAt(rows, i);
      if rows[i].Data? {
        LinePlain(rows[i].offset, rows[i].bytes);
      }
    }
    Hex8Digits(off + |buf|);
  }

  /** The string of a dump splits back into its lines, and they give back the buffer. */
  lemma StrRoundTrip(buf: seq<byte>, off: nat)
    ensures SplitLines(JoinLines(Dump(buf, off))) == Dump(buf, off)
    ensures Undump(SplitLines(JoinLines(Dump(buf, off)))) == buf
  {
    DumpPlain(buf, off);
    SplitJoin(Dump(buf, off));
    DumpRoundTrip(buf, off);
  }
}
