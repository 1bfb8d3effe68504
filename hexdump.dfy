/** The hexdump helper of reversing/resets.py: a byte buffer shown 16 bytes per line, with
    the line's offset, the bytes in two hex columns of 8 and their printable characters;
    a run of identical lines is collapsed into one "*", and the last line is the end
    offset. */
module HexLines {
  import opened Bytes
  import opened Wrappers

  // ---------------------------------------------------------------------------------------
  // Hex text

  /** The value of a lowercase hex digit; any other character reads as 0. */
  function DigitValue(c: char): (n: nat)
    ensures n < 16
  {
    if '0' <= c <= '9' then c as int - '0' as int
    else if 'a' <= c <= 'f' then c as int - 'a' as int + 10
    else 0
  }

  /** Lowercase hex digits only. */
  ghost predicate IsHexText(s: string) {
    forall i :: 0 <= i < |s| ==> '0' <= s[i] <= '9' || 'a' <= s[i] <= 'f'
  }

  /** The lowercase hex digit of a value below 16 (format type 'x'). */
  function HexDigit(n: nat): (c: char)
    requires n < 16
    ensures DigitValue(c) == n && ('0' <= c <= '9' || 'a' <= c <= 'f')
  {
    if n < 10 then ('0' as int + n) as char else ('a' as int + n - 10) as char
  }

  /** The value of a string of hex digits, most significant first. */
  function HexValue(s: string): nat
    decreases |s|
  {
    if s == [] then 0 else HexValue(s[..|s| - 1]) * 16 + DigitValue(s[|s| - 1])
  }

  /** 16 to the power k: the values that fit in k hex digits are those below it. */
  function Pow16(k: nat): (r: nat)
    ensures r >= 1
  {
    if k == 0 then 1 else 16 * Pow16(k - 1)
  }

  /** The hex digits of n without leading zeros (format '{:x}'). */
  function Hex(n: nat): (s: string)
    ensures 1 <= |s| && IsHexText(s)
    decreases n
  {
    if n < 16 then [HexDigit(n)] else Hex(n / 16) + [HexDigit(n % 16)]
  }

  /** Reading back the hex digits of n gives n. */
  lemma {:induction false} HexRoundTrip(n: nat)
    ensures HexValue(Hex(n)) == n
    decreases n
  {
    if n >= 16 {
      var s := Hex(n);
      assert s[..|s| - 1] == Hex(n / 16);
      HexRoundTrip(n / 16);
    }
  }

  /** The digits of n fit in k digits exactly when n is below 16 to the power k. */
  lemma {:induction false} HexWidth(n: nat, k: nat)
    requires 1 <= k
    ensures |Hex(n)| <= k <==> n < Pow16(k)
    decreases n
  {
    if n >= 16 {
      if k == 1 {
        assert |Hex(n)| == |Hex(n / 16)| + 1;
      } else {
        HexWidth(n / 16, k - 1);
      }
    }
  }

  /** k zero digits. */
  function ZeroDigits(k: nat): (s: string)
    ensures |s| == k && IsHexText(s)
  {
    seq(k, _ => '0')
  }

  /** Leading zero digits do not change a hex value. */
  lemma {:induction false} ZerosValue(k: nat, s: string)
    ensures HexValue(ZeroDigits(k) + s) == HexValue(s)
    decreases |s|
  {
    if s == [] {
      assert ZeroDigits(k) + s == ZeroDigits(k);
      ZerosAlone(k);
    } else {
      var t := ZeroDigits(k) + s;
      assert t[..|t| - 1] == ZeroDigits(k) + s[..|s| - 1];
      ZerosValue(k, s[..|s| - 1]);
    }
  }

  lemma {:induction false} ZerosAlone(k: nat)
    ensures HexValue(ZeroDigits(k)) == 0
    decreases k
  {
    if k > 0 {
      assert ZeroDigits(k)[..k - 1] == ZeroDigits(k - 1);
      ZerosAlone(k - 1);
    }
  }

  /** An offset as the source prints it (format '{:08x}'): its hex digits, with zeros in
      front up to 8 digits; wider offsets take more. */
  function Hex8(n: nat): (s: string)
    ensures |s| >= 8
  {
    var h := Hex(n);
    if |h| >= 8 then h else ZeroDigits(8 - |h|) + h
  }

  /** The offset field reads back as the offset, and it is exactly 8 digits wide when the
      offset fits in 32 bits. */
  lemma Hex8RoundTrip(n: nat)
    ensures HexValue(Hex8(n)) == n
    ensures |Hex8(n)| == 8 <==> n < U32Limit
  {
    HexRoundTrip(n);
    ZerosValue(8 - Min(8, |Hex(n)|), Hex(n));
    HexWidth(n, 8);
    assert Pow16(2) == 256 && Pow16(4) == 65536 && Pow16(6) == 0x100_0000;
  }

  /** A byte as two lowercase hex digits (format '{:02x}'). */
  function Hex2(b: byte): (s: string)
    ensures |s| == 2 && IsHexText(s) && DigitValue(s[0]) * 16 + DigitValue(s[1]) == b
  {
    [HexDigit(b / 16), HexDigit(b % 16)]
  }

  /** The bytes as hex pairs separated by single spaces (" ".join of the pairs). */
  function HexJoin(bs: seq<byte>): (s: string)
    ensures |s| == if bs == [] then 0 else 3 * |bs| - 1
    decreases |bs|
  {
    if bs == [] then []
    else if |bs| == 1 then Hex2(bs[0])
    else Hex2(bs[0]) + [' '] + HexJoin(bs[1..])
  }

  /** Byte j of the row sits at characters 3j and 3j + 1 of the joined hex, and a space
      follows it unless it is the last. */
  lemma {:induction false} HexJoinAt(bs: seq<byte>, j: nat)
    requires j < |bs|
    ensures HexJoin(bs)[3 * j] == Hex2(bs[j])[0] && HexJoin(bs)[3 * j + 1] == Hex2(bs[j])[1]
    ensures j + 1 < |bs| ==> HexJoin(bs)[3 * j + 2] == ' '
    decreases j
  {
    if j > 0 {
      HexJoinAt(bs[1..], j - 1);
      assert HexJoin(bs) == Hex2(bs[0]) + [' '] + HexJoin(bs[1..]);
    }
  }

  /** k spaces. */
  function Spaces(k: nat): (s: string)
    ensures |s| == k
  {
    seq(k, _ => ' ')
  }

  /** s left-aligned in a field at least w wide (format '{:w}' on a string). */
  function PadRight(s: string, w: nat): (r: string)
    ensures |r| == if |s| >= w then |s| else w
  {
    if |s| >= w then s else s + Spaces(w - |s|)
  }

  /** A padded field holds s, then spaces. */
  lemma PadRightAt(s: string, w: nat, i: nat)
    requires i < |PadRight(s, w)|
    ensures PadRight(s, w)[i] == if i < |s| then s[i] else ' '
  {
  }

  /** How a byte shows in the text column: itself when printable ASCII, else '.'. */
  function Printable(b: byte): (c: char)
    ensures (32 <= b < 127 ==> c as int == b) && (!(32 <= b < 127) ==> c == '.')
  {
    if 32 <= b < 127 then b as char else '.'
  }

  /** The text column of a row. */
  function Text(bs: seq<byte>): (s: string)
    ensures |s| == |bs|
  {
    seq(|bs|, j requires 0 <= j < |bs| => Printable(bs[j]))
  }

  /** Where the two hex columns split a row: after its first 8 bytes. */
  function Half(bs: seq<byte>): nat {
    Min(8, |bs|)
  }

  /** The line for the row of bytes bs at offset o: the offset, then the columns. */
  function Line(o: nat, bs: seq<byte>): string {
    Hex8(o) + Columns(bs)
  }

  /** The columns of a row: two spaces, its first 8 bytes in a 23-wide column, two spaces,
      the next 8 in another, two spaces, and the text column 16 wide between bars. */
  function Columns(bs: seq<byte>): string {
    Concat(["  ", PadRight(HexJoin(bs[..Half(bs)]), 23), "  ",
            PadRight(HexJoin(bs[Half(bs)..]), 23), "  |", PadRight(Text(bs), 16), "|"])
  }

  /** The strings of parts, one after the other. */
  function Concat(parts: seq<string>): string
    decreases |parts|
  {
    if parts == [] then [] else parts[0] + Concat(parts[1..])
  }

  // ---------------------------------------------------------------------------------------
  // Rows

  /** buf cut into rows of 16 bytes; the last row holds what remains. */
  function Chunks(buf: seq<byte>): (cs: seq<seq<byte>>)
    ensures 16 * |cs| - 16 < |buf| <= 16 * |cs|
    decreases |buf|
  {
    if buf == [] then []
    else if |buf| <= 16 then [buf]
    else [buf[..16]] + Chunks(buf[16..])
  }

  /** Row k is the 16 bytes from 16k on, or fewer at the end. */
  lemma {:induction false} ChunkAt(buf: seq<byte>, k: nat, i: nat)
    requires k < |Chunks(buf)| && i == 16 * k
    ensures i < |buf| && Chunks(buf)[k] == buf[i..Min(i + 16, |buf|)]
    decreases k
  {
    if k > 0 {
      var t := buf[16..];
      assert |buf| > 16 && Chunks(buf)[k] == Chunks(t)[k - 1];
      ChunkAt(t, k - 1, i - 16);
      assert Min(i, |t|) + 16 == Min(i + 16, |buf|);
      assert t[i - 16..Min(i, |t|)] == buf[i..Min(i + 16, |buf|)];
    }
  }

  /** What the dump shows for one row: a line, the "*" that stands for repeats of the row
      before, or nothing. */
  datatype Row = Data(offset: nat, bytes: seq<byte>) | Star

  function Render(r: Row): string {
    match r
    case Data(o, bs) => Line(o, bs)
    case Star => "*"
  }

  /** What row k of cs contributes: its line when it differs from the row before; a "*"
      when it repeats the row before but that row did not repeat its own predecessor;
      nothing inside a longer run of repeats. */
  function Entry(cs: seq<seq<byte>>, off: nat, k: nat): Option<Row>
    requires k < |cs|
  {
    if k == 0 || cs[k] != cs[k - 1] then Some(Data(off + 16 * k, cs[k]))
    else if k == 1 || cs[k - 1] != cs[k - 2] then Some(Star)
    else None
  }

  /** The dump rows of the first n rows of cs. */
  function Rows(cs: seq<seq<byte>>, off: nat, n: nat): seq<Row>
    requires n <= |cs|
  {
    if n == 0 then []
    else
      var e := Entry(cs, off, n - 1);
      Rows(cs, off, n - 1) + (if e.Some? then [e.value] else [])
  }

  /** The lines of rows, in order. */
  function Rendered(rows: seq<Row>): (lines: seq<string>)
    ensures |lines| == |rows|
    decreases |rows|
  {
    if rows == [] then [] else Rendered(rows[..|rows| - 1]) + [Render(rows[|rows| - 1])]
  }

  /** The lines of the dump of buf with offsets counted from off, the end offset last. */
  function Dump(buf: seq<byte>, off: nat): seq<string> {
    var cs := Chunks(buf);
    Rendered(Rows(cs, off, |cs|)) + [Hex8(off + |buf|)]
  }

  /** One more row adds its entry, if any, to the rendered dump. */
  lemma RowsNext(cs: seq<seq<byte>>, off: nat, k: nat)
    requires k < |cs|
    ensures Rendered(Rows(cs, off, k + 1))
         == Rendered(Rows(cs, off, k)) + (if Entry(cs, off, k).Some? then [Render(Entry(cs, off, k).value)] else [])
  {
    var rows := Rows(cs, off, k + 1);
    if Entry(cs, off, k).Some? {
      assert rows[..|rows| - 1] == Rows(cs, off, k);
    } else {
      assert rows == Rows(cs, off, k);
    }
  }

  /** The iteration's step over row k, from what it remembers of row k - 1: the line it
      computes is the one it remembers of row k, and it yields that line exactly when row
      k has an entry, which is that line. */
  lemma IterStep(cs: seq<seq<byte>>, off: nat, k: nat, lastBs: Option<seq<byte>>, lastLine: Option<string>, line: string, shown: bool)
    requires k < |cs|
    requires k == 0 ==> lastBs.None? && lastLine.None?
    requires k > 0 ==> lastBs == Some(cs[k - 1]) && lastLine == Some(LastLine(cs, off, k - 1))
    requires line == if lastBs == Some(cs[k]) then "*" else Line(off + 16 * k, cs[k])
    requires shown == (lastBs != Some(cs[k]) || lastLine != Some(line))
    ensures line == LastLine(cs, off, k)
    ensures shown == Entry(cs, off, k).Some? && (shown ==> Render(Entry(cs, off, k).value) == line)
  {
    if k > 0 && cs[k] == cs[k - 1] {
      RepeatStep(cs, off, k, lastLine.value);
    } else {
      assert lastBs != Some(cs[k]);
    }
  }

  /** A row that repeats the one before is remembered as "*", and shown exactly when the row
      before was not itself a repeat. */
  lemma RepeatStep(cs: seq<seq<byte>>, off: nat, k: nat, lastLine: string)
    requires 0 < k < |cs| && cs[k] == cs[k - 1] && lastLine == LastLine(cs, off, k - 1)
    ensures LastLine(cs, off, k) == "*"
    ensures (lastLine != "*") == Entry(cs, off, k).Some? && (lastLine != "*" ==> Entry(cs, off, k).value == Star)
  {
    if !(k - 1 > 0 && cs[k - 1] == cs[k - 2]) {
      LineNotStar(off + 16 * (k - 1), cs[k - 1]);
    }
  }

  /** A line is never the "*" of a repeat. */
  lemma LineNotStar(o: nat, bs: seq<byte>)
    ensures Line(o, bs) != "*"
  {
    assert |Line(o, bs)| >= |Hex8(o)|;
  }

  /** What the iteration has done after the first k rows of cs: yielded the entries of
      those rows, and remembered the last row and the line it computed for it. */
  ghost predicate Seen(cs: seq<seq<byte>>, off: nat, k: nat, lines: seq<string>, lastBs: Option<seq<byte>>, lastLine: Option<string>) {
    && k <= |cs| && lines == Rendered(Rows(cs, off, k))
    && (k == 0 ==> lastBs.None? && lastLine.None?)
    && (k > 0 ==> lastBs == Some(cs[k - 1]) && lastLine == Some(LastLine(cs, off, k - 1)))
  }

  /** The iteration's step over row k keeps what it has done in step with the dump rows. */
  lemma SeenNext(cs: seq<seq<byte>>, off: nat, k: nat, o: nat, lines: seq<string>, lastBs: Option<seq<byte>>, lastLine: Option<string>,
                  line: string, shown: bool, lines': seq<string>, lastBs': Option<seq<byte>>, lastLine': Option<string>)
    requires Seen(cs, off, k, lines, lastBs, lastLine) && k < |cs| && o == off + 16 * k
    requires line == if lastBs == Some(cs[k]) then "*" else Line(o, cs[k])
    requires shown == (lastBs != Some(cs[k]) || lastLine != Some(line))
    requires lines' == (if shown then lines + [line] else lines) && lastBs' == Some(cs[k]) && lastLine' == Some(line)
    ensures Seen(cs, off, k + 1, lines', lastBs', lastLine')
  {
    IterStep(cs, off, k, lastBs, lastLine, line, shown);
    RowsNext(cs, off, k);
  }

  /** What the iteration remembers as the last line of row j: "*" when the row repeats the
      one before, else its line. */
  function LastLine(cs: seq<seq<byte>>, off: nat, j: nat): string
    requires j < |cs|
  {
    if j > 0 && cs[j] == cs[j - 1] then "*" else Line(off + 16 * j, cs[j])
  }

  /** "\n".join(lines). */
  function JoinLines(lines: seq<string>): string
    decreases |lines|
  {
    if lines == [] then []
    else if |lines| == 1 then lines[0]
    else lines[0] + "\n" + JoinLines(lines[1..])
  }

  // ---------------------------------------------------------------------------------------
  // The dump loses nothing: runs of repeated rows, and the bytes rebuilt from the rows

  /** The rows of cs from k on, one after the other. */
  function Flatten(cs: seq<seq<byte>>): seq<byte>
    decreases |cs|
  {
    if cs == [] then [] else cs[0] + Flatten(cs[1..])
  }

  /** n copies of bs. */
  function Repeat(bs: seq<byte>, n: nat): seq<byte>
    decreases n
  {
    if n == 0 then [] else bs + Repeat(bs, n - 1)
  }

  /** Rows as Chunks cuts them: none empty, and all but the last 16 bytes long. */
  ghost predicate Shaped(cs: seq<seq<byte>>) {
    forall j :: 0 <= j < |cs| ==> 1 <= |cs[j]| <= 16 && (j + 1 < |cs| ==> |cs[j]| == 16)
  }

  /** Cutting buf into rows and putting them back together gives buf. */
  lemma {:induction false} ChunksFlatten(buf: seq<byte>)
    ensures Flatten(Chunks(buf)) == buf && Shaped(Chunks(buf))
    decreases |buf|
  {
    if |buf| > 16 {
      ChunksFlatten(buf[16..]);
      assert Chunks(buf)[1..] == Chunks(buf[16..]);
      assert buf == buf[..16] + buf[16..];
    } else if buf != [] {
      assert Chunks(buf)[1..] == [];
    }
  }

  /** The number of rows from k on that equal row k, row k included. */
  function RunLength(cs: seq<seq<byte>>, k: nat): (m: nat)
    requires k < |cs|
    ensures 1 <= m <= |cs| - k
    decreases |cs| - k
  {
    if k + 1 < |cs| && cs[k + 1] == cs[k] then 1 + RunLength(cs, k + 1) else 1
  }

  /** A run's rows all equal its first, and the row after it differs. */
  lemma {:induction false} RunSame(cs: seq<seq<byte>>, k: nat, j: nat)
    requires k < |cs| && j < RunLength(cs, k)
    ensures cs[k + j] == cs[k]
    decreases j
  {
    if j > 0 {
      RunSame(cs, k + 1, j - 1);
    }
  }

  lemma {:induction false} RunEnds(cs: seq<seq<byte>>, k: nat)
    requires k < |cs|
    ensures var m := RunLength(cs, k); k + m == |cs| || cs[k + m] != cs[k + m - 1]
    decreases |cs| - k
  {
    if k + 1 < |cs| && cs[k + 1] == cs[k] {
      RunEnds(cs, k + 1);
      RunSame(cs, k + 1, RunLength(cs, k + 1) - 1);
    }
  }

  /** The dump rows of cs from the run that starts at row k, run by run: the run's first
      row as a line, then a "*" when the run repeats it. This is the reference the dump is
      checked against. */
  function RunRows(cs: seq<seq<byte>>, off: nat, k: nat): seq<Row>
    requires k <= |cs|
    decreases |cs| - k
  {
    if k == |cs| then []
    else
      var m := RunLength(cs, k);
      [Data(off + 16 * k, cs[k])] + (if m >= 2 then [Star] else []) + RunRows(cs, off, k + m)
  }

  /** The run rows from row k: the line of row k, a "*" when its run repeats it, and the
      rows of the next run. */
  lemma RunRowsStep(cs: seq<seq<byte>>, off: nat, k: nat) returns (head: seq<Row>)
    requires k < |cs|
    ensures head == [Data(off + 16 * k, cs[k])] + (if RunLength(cs, k) >= 2 then [Star] else [])
    ensures RunRows(cs, off, k) == head + RunRows(cs, off, k + RunLength(cs, k))
  {
    head := [Data(off + 16 * k, cs[k])] + (if RunLength(cs, k) >= 2 then [Star] else []);
  }

  /** Does row k start a run: is it first, or different from the row before? */
  ghost predicate RunStart(cs: seq<seq<byte>>, k: nat)
    requires k <= |cs|
  {
    k == 0 || k == |cs| || cs[k] != cs[k - 1]
  }

  /** Within the run starting at row k, the first j rows give its line and then at most one
      "*". */
  lemma {:induction false} RunPrefix(cs: seq<seq<byte>>, off: nat, k: nat, j: nat)
    requires k < |cs| && RunStart(cs, k) && 1 <= j <= RunLength(cs, k)
    ensures Rows(cs, off, k + j) == Rows(cs, off, k) + [Data(off + 16 * k, cs[k])] + (if j >= 2 then [Star] else [])
    decreases j
  {
    if j == 1 {
      assert Entry(cs, off, k) == Some(Data(off + 16 * k, cs[k]));
    } else {
      RunPrefix(cs, off, k, j - 1);
      RunSame(cs, k, j - 1);
      if j == 2 {
        assert Entry(cs, off, k + 1) == Some(Star);
      } else {
        RunSame(cs, k, j - 2);
        RunSame(cs, k, j - 3);
        assert Entry(cs, off, k + j - 1) == None;
      }
    }
  }

  /** The dump rows, which the iteration builds row by row, are the rows of the runs. */
  lemma {:induction false} RowsAreRuns(cs: seq<seq<byte>>, off: nat, k: nat)
    requires k <= |cs| && RunStart(cs, k)
    ensures Rows(cs, off, |cs|) == Rows(cs, off, k) + RunRows(cs, off, k)
    decreases |cs| - k
  {
    if k < |cs| {
      var m := RunLength(cs, k);
      var head := RunRowsStep(cs, off, k);
      RunPrefix(cs, off, k, m);
      RunEnds(cs, k);
      RowsAreRuns(cs, off, k + m);
      Regroup(Rows(cs, off, |cs|), Rows(cs, off, k + m), Rows(cs, off, k), head, RunRows(cs, off, k + m), RunRows(cs, off, k));
    }
  }

  lemma Regroup(all: seq<Row>, upTo: seq<Row>, before: seq<Row>, head: seq<Row>, after: seq<Row>, runs: seq<Row>)
    requires all == upTo + after && upTo == before + head && runs == head + after
    ensures all == before + runs
  {
  }

  /** Rebuilds bytes from dump rows, given the end offset: a line gives its bytes, and a
      "*" after it repeats them up to the offset of the next line, or of the end. */
  function Restore(rows: seq<Row>, end: nat): seq<byte>
    decreases |rows|
  {
    if rows == [] then []
    else match rows[0]
      case Star => Restore(rows[1..], end)
      case Data(o, bs) =>
        if |rows| >= 2 && rows[1].Star? then
          var next := if |rows| >= 3 && rows[2].Data? then rows[2].offset else end;
          Repeat(bs, if next >= o then (next - o) / 16 else 0) + Restore(rows[2..], end)
        else bs + Restore(rows[1..], end)
  }

  lemma {:induction false} FlattenLength(cs: seq<seq<byte>>)
    requires Shaped(cs) && cs != []
    ensures |Flatten(cs)| == 16 * (|cs| - 1) + |cs[|cs| - 1]|
    decreases |cs|
  {
    if |cs| > 1 {
      assert Shaped(cs[1..]) by {
        forall j | 0 <= j < |cs| - 1
          ensures 1 <= |cs[1..][j]| <= 16 && (j + 1 < |cs| - 1 ==> |cs[1..][j]| == 16)
        {
          assert cs[1..][j] == cs[j + 1];
        }
      }
      FlattenLength(cs[1..]);
    }
  }

  /** A run of m equal rows flattens to m copies of its row. */
  lemma {:induction false} FlattenRun(cs: seq<seq<byte>>, k: nat, m: nat)
    requires 1 <= m && k + m <= |cs| && forall j :: k <= j < k + m ==> cs[j] == cs[k]
    ensures Flatten(cs[k..]) == Repeat(cs[k], m) + Flatten(cs[k + m..])
    decreases m
  {
    assert cs[k..][1..] == cs[k + 1..];
    if m == 1 {
      assert Repeat(cs[k], 1) == cs[k];
    } else {
      FlattenRun(cs, k + 1, m - 1);
      assert cs[k + 1] == cs[k];
    }
  }

  /** The run rows rebuild the bytes of their rows: a "*" stands for exactly the repeats of
      its run, since a repeated row is never the short last one. */
  lemma {:induction false} RestoreRuns(cs: seq<seq<byte>>, off: nat, k: nat)
    requires Shaped(cs) && k <= |cs| && RunStart(cs, k)
    ensures Restore(RunRows(cs, off, k), off + |Flatten(cs)|) == Flatten(cs[k..])
    decreases |cs| - k
  {
    if k < |cs| {
      var m := RunLength(cs, k);
      RunEnds(cs, k);
      RestoreRuns(cs, off, k + m);
      RestoreRun(cs, off, k);
      FlattenRunLength(cs, k);
    }
  }

  /** One run of the run rows rebuilds its m equal rows. */
  lemma RestoreRun(cs: seq<seq<byte>>, off: nat, k: nat)
    requires Shaped(cs) && k < |cs|
    ensures var e := off + |Flatten(cs)|;
      Restore(RunRows(cs, off, k), e) == Repeat(cs[k], RunLength(cs, k)) + Restore(RunRows(cs, off, k + RunLength(cs, k)), e)
  {
    RunAllSame(cs, k);
    if RunLength(cs, k) >= 2 {
      RestoreRepeatRun(cs, off, k);
    } else {
      RestoreSingleRow(cs, off, k);
      assert Repeat(cs[k], 1) == cs[k];
    }
  }

  /** The bytes from row k on are the run at k, repeated, then the bytes of the rows after. */
  lemma FlattenRunLength(cs: seq<seq<byte>>, k: nat)
    requires k < |cs|
    ensures Flatten(cs[k..]) == Repeat(cs[k], RunLength(cs, k)) + Flatten(cs[k + RunLength(cs, k)..])
  {
    RunAllSame(cs, k);
    FlattenRun(cs, k, RunLength(cs, k));
  }

  lemma RunAllSame(cs: seq<seq<byte>>, k: nat)
    requires k < |cs|
    ensures forall j :: k <= j < k + RunLength(cs, k) ==> cs[j] == cs[k]
  {
    forall j | k <= j < k + RunLength(cs, k)
      ensures cs[j] == cs[k]
    {
      RunSame(cs, k, j - k);
    }
  }

  /** A row that is not repeated is rebuilt as itself. */
  lemma RestoreSingleRow(cs: seq<seq<byte>>, off: nat, k: nat)
    requires k < |cs| && RunLength(cs, k) == 1
    ensures Restore(RunRows(cs, off, k), off + |Flatten(cs)|) == cs[k] + Restore(RunRows(cs, off, k + 1), off + |Flatten(cs)|)
  {
    var rows := RunRows(cs, off, k);
    var rest := RunRows(cs, off, k + 1);
    assert rows == [Data(off + 16 * k, cs[k])] + rest;
    assert rows[1..] == rest;
  }

  /** A run of m >= 2 equal rows is rebuilt as m copies: the next line, or the end, lies m
      rows after the run's line, since the repeated row is a full 16 bytes. */
  lemma RestoreRepeatRun(cs: seq<seq<byte>>, off: nat, k: nat)
    requires Shaped(cs) && k < |cs| && RunLength(cs, k) >= 2
    requires forall j :: k <= j < k + RunLength(cs, k) ==> cs[j] == cs[k]
    ensures var m := RunLength(cs, k);
      Restore(RunRows(cs, off, k), off + |Flatten(cs)|) == Repeat(cs[k], m) + Restore(RunRows(cs, off, k + m), off + |Flatten(cs)|)
  {
    var m := RunLength(cs, k);
    var end := off + |Flatten(cs)|;
    var rows := RunRows(cs, off, k);
    var rest := RunRows(cs, off, k + m);
    assert rows == [Data(off + 16 * k, cs[k]), Star] + rest;
    assert rows[2..] == rest;
    var next := if |rows| >= 3 && rows[2].Data? then rows[2].offset else end;
    assert next == off + 16 * (k + m) by {
      if k + m == |cs| {
        FlattenLength(cs);
        assert cs[|cs| - 1] == cs[k];
      }
    }
    assert (next - (off + 16 * k)) / 16 == m;
  }

  /** The dump rows of buf rebuild buf, given the end offset the dump prints last. */
  lemma RowsRestore(buf: seq<byte>, off: nat)
    ensures Restore(Rows(Chunks(buf), off, |Chunks(buf)|), off + |buf|) == buf
  {
    ChunksFlatten(buf);
    ShapedRestore(Chunks(buf), off);
  }

  /** Rows shaped as Chunks cuts them are rebuilt from their dump rows. */
  lemma ShapedRestore(cs: seq<seq<byte>>, off: nat)
    requires Shaped(cs)
    ensures Restore(Rows(cs, off, |cs|), off + |Flatten(cs)|) == Flatten(cs)
  {
    RowsAreRuns(cs, off, 0);
    RestoreRuns(cs, off, 0);
    assert cs[0..] == cs;
    assert Rows(cs, off, 0) == [];
    assert Rows(cs, off, |cs|) == RunRows(cs, off, 0);
  }
}
