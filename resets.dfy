/** The hexdump class of reversing/resets.py over a buffer and the offset of its first
    byte: iterating it yields the dump's lines, and its string is those lines joined. */
module Resets {
  import opened Bytes
  import opened Wrappers
  import opened HexLines
  import opened HexUndump

  /** A hexdump of buf whose first byte is at offset off. */
  class HexDump {
    const buf: seq<byte>
    const off: nat

    constructor(buf: seq<byte>, off: nat)
      ensures this.buf == buf && this.off == off
    {
      this.buf := buf;
      this.off := off;
    }

    /** The loop body of the iteration, over the row at buf[i]: a repeat of the row before
        becomes "*", and a line is yielded unless it repeats the line before. */
    method Visit(ghost cs: seq<seq<byte>>, ghost k: nat, i: nat, lines: seq<string>, lastBs: Option<seq<byte>>, lastLine: Option<string>)
      returns (lines': seq<string>, lastBs': Option<seq<byte>>, lastLine': Option<string>)
      requires cs == Chunks(buf) && k < |cs| && i == 16 * k && Seen(cs, off, k, lines, lastBs, lastLine)
      ensures Seen(cs, off, k + 1, lines', lastBs', lastLine')
    {
      var bs := buf[i..Min(i + 16, |buf|)];
      ChunkAt(buf, k, i);
      var line := Line(off + i, bs);
      if lastBs == Some(bs) {
        line := "*";
      }
      var shown := lastBs != Some(bs) || lastLine != Some(line);
      lines' := lines;
      if shown {
        lines' := lines + [line];
      }
      lastBs', lastLine' := Some(bs), Some(line);
      SeenNext(cs, off, k, off + i, lines, lastBs, lastLine, line, shown, lines', lastBs', lastLine');
    }

    /** The lines the iteration yields, in order. */
    method Iter() returns (lines: seq<string>)
      ensures lines == Dump(buf, off)
      ensures Undump(lines) == buf
    {
      lines := RowLines();
      lines := lines + [Hex8(off + |buf|)];
      DumpRoundTrip(buf, off);
    }

    /** The loop of the iteration: the lines it yields for the rows of buf, before the end
        offset. */
    method RowLines() returns (lines: seq<string>)
      ensures lines == Rendered(Rows(Chunks(buf), off, |Chunks(buf)|))
    {
      ghost var cs := Chunks(buf);
      var lastBs: Option<seq<byte>> := None;
      var lastLine: Option<string> := None;
      lines := [];
      var i := 0;
      ghost var k := 0;
      while i < |buf|
        invariant i == 16 * k && (i < |buf| <==> k < |cs|) && Seen(cs, off, k, lines, lastBs, lastLine)
        decreases |buf| - i
      {
        lines, lastBs, lastLine := Visit(cs, k, i, lines, lastBs, lastLine);
        i, k := i + 16, k + 1;
      }
    }

    /** The dump as one string, its lines joined by newlines; split at the newlines, it
        reads back as buf. */
    method Str() returns (s: string)
      ensures s == JoinLines(Dump(buf, off))
      ensures Undump(SplitLines(s)) == buf
    {
      var lines := Iter();
      s := JoinLines(lines);
      StrRoundTrip(buf, off);
    }

    /** The representation is the same string. */
    method Repr() returns (s: string)
      ensures s == JoinLines(Dump(buf, off))
      ensures Undump(SplitLines(s)) == buf
    {
      s := Str();
    }
  }
}
