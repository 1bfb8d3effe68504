/** The EEPROM decompressor (reversing/rpi-eeprom-compress/uncompress.c): it reads a command
    byte, then up to 8 tokens whose kinds are the command's bits, least significant first,
    and keeps the last 256 output bytes in a ring buffer for back-references. */
module Uncompress {
  import opened Bytes
  import opened Wrappers
  import opened LzFormat

  /** How the decoder stops. */
  datatype Status =
    | Done           // end of input at a command byte or a literal: exit status 0
    | UnexpectedEof  // end of input inside a back-reference: "Unexpected EOF", status 1
    | Undefined      // a back-reference reaches before the first output byte: the ring
                     // slot it reads was never written, which C leaves undefined

  /** The bytes written to standard output, and how decoding stopped. */
  datatype Decoded = Decoded(out: seq<byte>, status: Status)

  /** Decoding input from the start, with nothing output yet. */
  function Decode(input: seq<byte>): Decoded {
    DecodeFrom(input, 0, [])
  }

  /** Decoding from a command byte at input[i], after out has been output. */
  function DecodeFrom(input: seq<byte>, i: nat, out: seq<byte>): Decoded
    requires i <= |input|
    decreases |input| - i, 0
  {
    if i == |input| then Decoded(out, Done) else DecodeGroup(input, i + 1, input[i], 8, out)
  }

  /** Decoding the remaining left tokens of a group whose unread command bits are cmd, with
      the next token at input[i]. */
  function DecodeGroup(input: seq<byte>, i: nat, cmd: nat, left: nat, out: seq<byte>): Decoded
    requires i <= |input|
    decreases |input| - i, left + 1
  {
    if left == 0 then DecodeFrom(input, i, out)
    else if cmd % 2 == 1 then
      if i + 2 > |input| then Decoded(out, UnexpectedEof)
      else if input[i] as int + 1 > |out| then Decoded(out, Undefined)
      else DecodeGroup(input, i + 2, cmd / 2, left - 1, CopyBack(out, input[i] as int + 1, input[i + 1] as int + 1))
    else if i == |input| then Decoded(out, Done)
    else DecodeGroup(input, i + 1, cmd / 2, left - 1, out + [input[i]])
  }

  /** A zeroed 256-byte buffer. */
  function Zeros(): (r: seq<byte>)
    ensures |r| == 256
  {
    seq(256, _ => 0)
  }

  /** The 256-byte history after out has been output: every byte written at its position
      modulo 256, into a buffer that starts zeroed (its initial contents are never read by
      a stream that decodes without an Undefined back-reference). */
  function RingOf(out: seq<byte>): (r: seq<byte>)
    ensures |r| == 256
    decreases |out|
  {
    if out == [] then Zeros()
    else RingOf(out[..|out| - 1])[(|out| - 1) % 256 := out[|out| - 1]]
  }

  /** The history holds each of the last 256 output bytes at its position modulo 256. */
  lemma {:induction false} RingHolds(out: seq<byte>, k: nat)
    requires k < |out| && |out| - 256 <= k
    ensures RingOf(out)[k % 256] == out[k]
    decreases |out|
  {
    var n := |out| - 1;
    if k < n {
      var q, r := k / 256, k % 256;
      assert k == 256 * q + r;
      assert n % 256 != r by {
        var qn, rn := n / 256, n % 256;
        assert n == 256 * qn + rn;
        if rn == r {
          assert false;
        }
      }
      RingHolds(out[..n], k);
    }
  }

  /** One output byte: it goes to standard output and into the ring slot outI, and the
      uint8 index outI moves on. */
  method Emit(outbuf: array<byte>, outI: nat, out: seq<byte>, c: byte) returns (outI': nat, out': seq<byte>)
    requires outbuf.Length == 256 && outI == |out| % 256 && outbuf[..] == RingOf(out)
    modifies outbuf
    ensures out' == out + [c] && outI' == |out'| % 256 && outbuf[..] == RingOf(out')
  {
    outbuf[outI] := c;
    outI' := (outI + 1) % 256;
    out' := out + [c];
    assert out'[..|out'| - 1] == out;
  }

  /** Stepping a wrapping uint8 index back by a distance of at most 256, taken modulo 256,
      lands on the slot of the position that distance back. */
  lemma SameSlot(n: nat, d: nat)
    requires 1 <= d <= 256 && d <= n
    ensures (n % 256 - d % 256) % 256 == (n - d) % 256
  {
    var q, r := n / 256, n % 256;
    assert n == 256 * q + r;
    if d == 256 {
      assert n - d == 256 * (q - 1) + r;
    } else if r >= d {
      assert n - d == 256 * q + (r - d);
    } else {
      assert n - d == 256 * (q - 1) + (r - d + 256);
    }
  }

  /** The ring slot offset behind the index of the next write holds the output byte d back,
      where offset is d as a uint8 (256 wraps to 0). */
  lemma RingRead(out: seq<byte>, offset: byte, d: nat)
    requires 1 <= d <= 256 && d <= |out| && offset == d % 256
    ensures RingOf(out)[(|out| % 256 - offset) % 256] == out[|out| - d]
  {
    SameSlot(|out|, d);
    RingHolds(out, |out| - d);
  }

  /** One byte of a back-reference: the ring slot offset behind outI, which holds the
      output byte d back, is output again. */
  method CopyByte(outbuf: array<byte>, outI: nat, out: seq<byte>, offset: byte, ghost d: nat)
    returns (outI': nat, out': seq<byte>)
    requires outbuf.Length == 256 && outI == |out| % 256 && outbuf[..] == RingOf(out)
    requires 1 <= d <= 256 && d <= |out| && offset == d % 256
    modifies outbuf
    ensures out' == out + [out[|out| - d]] && outI' == |out'| % 256 && outbuf[..] == RingOf(out')
  {
    var c := outbuf[(outI - offset) % 256];
    RingRead(out, offset, d);
    outI', out' := Emit(outbuf, outI, out, c);
  }

  /** The copy of a back-reference: len + 1 bytes, each read from the ring slot offset
      bytes behind outI (a wrapped offset of 0 reads the slot about to be overwritten, 256
      bytes back) before the next is written. */
  method CopyRef(outbuf: array<byte>, outI: nat, out: seq<byte>, offset: byte, len: byte)
    returns (outI': nat, out': seq<byte>)
    requires outbuf.Length == 256 && outI == |out| % 256 && outbuf[..] == RingOf(out)
    requires (if offset == 0 then 256 else offset) <= |out|
    modifies outbuf
    ensures out' == CopyBack(out, if offset == 0 then 256 else offset, len as int + 1)
    ensures outI' == |out'| % 256 && outbuf[..] == RingOf(out')
  {
    ghost var d: nat := if offset == 0 then 256 else offset;
    assert 1 <= d <= 256 && offset == d % 256;
    outI', out' := outI, out;
    ghost var goal := CopyBack(out, d, len as int + 1);
    ghost var rem: nat := len as int + 1;
    // do { ... } while (len--) copies len + 1 bytes
    for k := 0 to len as int + 1
      invariant rem == len as int + 1 - k
      invariant d <= |out'| && outI' == |out'| % 256 && outbuf[..] == RingOf(out')
      invariant CopyBack(out', d, rem) == goal
    {
      ghost var before := out';
      outI', out' := CopyByte(outbuf, outI', out', offset, d);
      CopyBackStep(before, out', d, rem - 1);
      rem := rem - 1;
    }
  }

  /** A copy of n + 1 bytes is one byte copied, then n more. */
  lemma CopyBackStep(before: seq<byte>, after: seq<byte>, d: nat, n: nat)
    requires 1 <= d <= |before| && after == before + [before[|before| - d]]
    ensures d <= |after| && CopyBack(after, d, n) == CopyBack(before, d, n + 1)
  {
  }

  /** One token of a group whose unread command bits are bits, with the next token at
      input[pos]: a set bit reads an offset and a length byte and copies, a clear bit copies
      one input byte. stop is the status when the input ended, and None when the token was
      decoded. */
  method DecodeToken(input: seq<byte>, pos: nat, bits: nat, left: nat, outbuf: array<byte>, outI: nat, out: seq<byte>)
    returns (pos': nat, outI': nat, out': seq<byte>, stop: Option<Status>)
    requires pos <= |input| && 1 <= left && outbuf.Length == 256 && outI == |out| % 256 && outbuf[..] == RingOf(out)
    requires DecodeGroup(input, pos, bits, left, out).status != Undefined
    modifies outbuf
    ensures pos <= pos' <= |input| && outI' == |out'| % 256 && outbuf[..] == RingOf(out')
    ensures stop.None? ==> DecodeGroup(input, pos', bits / 2, left - 1, out') == DecodeGroup(input, pos, bits, left, out)
    ensures stop.Some? ==> Decoded(out', stop.value) == DecodeGroup(input, pos, bits, left, out)
  {
    if bits % 2 == 1 {
      pos', outI', out', stop := DecodeRef(input, pos, bits, left, outbuf, outI, out);
    } else {
      pos', outI', out', stop := DecodeLiteral(input, pos, bits, left, outbuf, outI, out);
    }
  }

  /** A set bit: an offset byte and a length byte, then the copy. */
  method DecodeRef(input: seq<byte>, pos: nat, bits: nat, left: nat, outbuf: array<byte>, outI: nat, out: seq<byte>)
    returns (pos': nat, outI': nat, out': seq<byte>, stop: Option<Status>)
    requires pos <= |input| && 1 <= left && bits % 2 == 1 && outbuf.Length == 256 && outI == |out| % 256 && outbuf[..] == RingOf(out)
    requires DecodeGroup(input, pos, bits, left, out).status != Undefined
    modifies outbuf
    ensures pos <= pos' <= |input| && outI' == |out'| % 256 && outbuf[..] == RingOf(out')
    ensures stop.None? ==> DecodeGroup(input, pos', bits / 2, left - 1, out') == DecodeGroup(input, pos, bits, left, out)
    ensures stop.Some? ==> Decoded(out', stop.value) == DecodeGroup(input, pos, bits, left, out)
  {
    pos', outI', out', stop := pos, outI, out, None;
    if pos' == |input| {
      return pos', outI', out', Some(UnexpectedEof);
    }
    var offset := (input[pos'] as int + 1) % 256;
    pos' := pos' + 1;
    if pos' == |input| {
      return pos', outI', out', Some(UnexpectedEof);
    }
    var len := input[pos'];
    pos' := pos' + 1;
    ghost var d := input[pos' - 2] as int + 1;
    assert DecodeGroup(input, pos, bits, left, out)
        == DecodeGroup(input, pos', bits / 2, left - 1, CopyBack(out, d, len as int + 1));
    assert (if offset == 0 then 256 else offset) == d;
    outI', out' := CopyRef(outbuf, outI', out', offset, len);
  }

  /** A clear bit: one input byte copied to the output. */
  method DecodeLiteral(input: seq<byte>, pos: nat, bits: nat, left: nat, outbuf: array<byte>, outI: nat, out: seq<byte>)
    returns (pos': nat, outI': nat, out': seq<byte>, stop: Option<Status>)
    requires pos <= |input| && 1 <= left && bits % 2 == 0 && outbuf.Length == 256 && outI == |out| % 256 && outbuf[..] == RingOf(out)
    modifies outbuf
    ensures pos <= pos' <= |input| && outI' == |out'| % 256 && outbuf[..] == RingOf(out')
    ensures stop.None? ==> DecodeGroup(input, pos', bits / 2, left - 1, out') == DecodeGroup(input, pos, bits, left, out)
    ensures stop.Some? ==> Decoded(out', stop.value) == DecodeGroup(input, pos, bits, left, out)
  {
    pos', outI', out', stop := pos, outI, out, None;
    if pos' == |input| {
      return pos', outI', out', Some(Done);
    }
    assert DecodeGroup(input, pos, bits, left, out)
        == DecodeGroup(input, pos + 1, bits / 2, left - 1, out + [input[pos]]);
    outI', out' := Emit(outbuf, outI', out', input[pos']);
    pos' := pos' + 1;
  }

  /** The 8-step loop over the bits of one command byte cmd, with the next token at
      input[pos]. stop is the status when the input ended inside the group, and None when
      all 8 tokens were decoded. */
  method DecodeCommand(input: seq<byte>, pos: nat, cmd: byte, outbuf: array<byte>, outI: nat, out: seq<byte>)
    returns (pos': nat, outI': nat, out': seq<byte>, stop: Option<Status>)
    requires pos <= |input| && outbuf.Length == 256 && outI == |out| % 256 && outbuf[..] == RingOf(out)
    requires DecodeGroup(input, pos, cmd, 8, out).status != Undefined
    modifies outbuf
    ensures pos <= pos' <= |input| && outI' == |out'| % 256 && outbuf[..] == RingOf(out')
    ensures stop.None? ==> DecodeFrom(input, pos', out') == DecodeGroup(input, pos, cmd, 8, out)
    ensures stop.Some? ==> Decoded(out', stop.value) == DecodeGroup(input, pos, cmd, 8, out)
  {
    ghost var goal := DecodeGroup(input, pos, cmd, 8, out);
    pos', outI', out' := pos, outI, out;
    var bits: nat := cmd;
    var i := 0;
    while i < 8
      invariant pos <= pos' <= |input| && i <= 8 && outI' == |out'| % 256 && outbuf[..] == RingOf(out')
      invariant DecodeGroup(input, pos', bits, 8 - i, out') == goal
      decreases 8 - i
    {
      pos', outI', out', stop := DecodeToken(input, pos', bits, 8 - i, outbuf, outI', out');
      if stop.Some? {
        return;
      }
      bits := bits / 2;
      i := i + 1;
    }
    stop := None;
  }

  /** The decode loop of main: out is what it writes to standard output, status how it
      stops. It follows the source's byte arithmetic: the offset byte plus one wraps to 0
      for a distance of 256, and the ring index is a uint8 that wraps. */
  method Uncompress(input: seq<byte>) returns (out: seq<byte>, status: Status)
    requires Decode(input).status != Undefined
    ensures Decoded(out, status) == Decode(input)
  {
    var outbuf := new byte[256](_ => 0);
    var outI := 0;
    var pos := 0;
    out := [];
    assert outbuf[..] == Zeros() == RingOf([]);
    while true
      invariant pos <= |input| && outI == |out| % 256 && outbuf[..] == RingOf(out)
      invariant DecodeFrom(input, pos, out) == Decode(input)
      decreases |input| - pos
    {
      if pos == |input| {
        return out, Done;
      }
      var stop;
      pos, outI, out, stop := DecodeCommand(input, pos + 1, input[pos], outbuf, outI, out);
      if stop.Some? {
        return out, stop.value;
      }
    }
  }
}
