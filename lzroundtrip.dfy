/** What the EEPROM compressor and decompressor promise together: the decoder turns any
    serialised decodable token stream back into its expansion, so the compressor's output
    decodes to its input; the output is the cost in bits of the table rounded up to whole
    bytes; and no token stream that expands to the input costs fewer bits. */
module LzRoundTrip {
  import opened Wrappers
  import opened Bytes
  import opened LzFormat
  import opened Compress
  import opened Uncompress

  // ---------------------------------------------------------------------------------------
  // Decoding a serialised stream

  /** The first token of a group owns bit 0 of the flags. */
  lemma FlagsHead(g: seq<Token>)
    requires g != []
    ensures Flags(g) % 2 == (if g[0].BackRef? then 1 else 0) && Flags(g) / 2 == Flags(g[1..])
  {
    HalfBit(Flags(g), if g[0].BackRef? then 1 else 0, Flags(g[1..]));
  }

  /** A bit below twice f: halving drops it, and it is the remainder. */
  lemma HalfBit(x: nat, b: nat, f: nat)
    requires b < 2 && x == b + 2 * f
    ensures x % 2 == b && x / 2 == f
  {
    assert x == 2 * (x / 2) + x % 2;
  }

  /** The decoder reads input front to back: from position |p| + i of p + s it does what it
      does from position i of s. */
  lemma {:induction false} ShiftFrom(p: seq<byte>, s: seq<byte>, i: nat, out: seq<byte>)
    requires i <= |s|
    ensures DecodeFrom(p + s, |p| + i, out) == DecodeFrom(s, i, out)
    decreases |s| - i, 0
  {
    if i < |s| {
      assert (p + s)[|p| + i] == s[i];
      ShiftGroup(p, s, i + 1, s[i], 8, out);
    }
  }

  lemma {:induction false} ShiftGroup(p: seq<byte>, s: seq<byte>, i: nat, cmd: nat, left: nat, out: seq<byte>)
    requires i <= |s|
    ensures DecodeGroup(p + s, |p| + i, cmd, left, out) == DecodeGroup(s, i, cmd, left, out)
    decreases |s| - i, left + 1
  {
    if left == 0 {
      ShiftFrom(p, s, i, out);
    } else if cmd % 2 == 1 {
      if i + 2 <= |s| && s[i] as int + 1 <= |out| {
        assert (p + s)[|p| + i] == s[i] && (p + s)[|p| + i + 1] == s[i + 1];
        ShiftGroup(p, s, i + 2, cmd / 2, left - 1, CopyBack(out, s[i] as int + 1, s[i + 1] as int + 1));
      } else if i + 2 <= |s| {
        assert (p + s)[|p| + i] == s[i];
      }
    } else if i < |s| {
      assert (p + s)[|p| + i] == s[i];
      ShiftGroup(p, s, i + 1, cmd / 2, left - 1, out + [s[i]]);
    }
  }

  /** From the serialisation of ts, the decoder outputs the expansion of ts after out and
      stops at the end of the input. */
  lemma {:induction false} StreamDecodes(out: seq<byte>, ts: seq<Token>)
    requires Decodable(out, ts)
    ensures DecodeFrom(Serialize(ts), 0, out) == Decoded(Apply(out, ts), Done)
    decreases |ts|, 2
  {
    if ts != [] {
      var g, rest := StreamStart(out, ts);
      GroupDecodes(Flags(g), 8, out, g, rest);
    }
  }

  /** A nonempty serialised stream starts with the command byte of its first group g, whose
      tokens are then pending before the stream rest. */
  lemma StreamStart(out: seq<byte>, ts: seq<Token>) returns (g: seq<Token>, rest: seq<Token>)
    requires Decodable(out, ts) && ts != []
    ensures ts == g + rest && Pending(Flags(g), 8, out, g, rest)
    ensures DecodeFrom(Serialize(ts), 0, out) == DecodeGroup(Body(g) + Serialize(rest), 0, Flags(g), 8, out)
  {
    g, rest := FirstGroup(ts);
    ShiftGroup([Flags(g) as byte], Body(g) + Serialize(rest), 0, Flags(g), 8, out);
  }

  /** The first group g of a nonempty stream ts, and the stream rest after it: ts serialises
      to the command byte of g, the bytes of g and the serialisation of rest. */
  lemma FirstGroup(ts: seq<Token>) returns (g: seq<Token>, rest: seq<Token>)
    requires ts != []
    ensures ts == g + rest && |g| <= 8 && (|g| < 8 ==> rest == []) && Flags(g) < 256
    ensures Serialize(ts) == [Flags(g) as byte] + (Body(g) + Serialize(rest))
  {
    var n := GroupLen(ts);
    g, rest := ts[..n], ts[n..];
    FlagsFitByte(g);
  }

  /** The remaining left tokens g of a group, whose unread command bits are cmd, then the
      stream rest, can be expanded after out. A group shorter than the tokens left in it is
      the last. */
  ghost predicate Pending(cmd: nat, left: nat, out: seq<byte>, g: seq<Token>, rest: seq<Token>) {
    && cmd == Flags(g) && |g| <= left <= 8 && (|g| < left ==> rest == [])
    && Decodable(out, g + rest)
  }

  /** From the bytes of the pending tokens of a group and then the serialised rest of the
      stream, the decoder outputs their expansion and stops at the end of the input: a short
      last group has its missing flag bits clear, so the decoder reads a literal at the end
      of the input and stops. */
  lemma {:induction false} GroupDecodes(cmd: nat, left: nat, out: seq<byte>, g: seq<Token>, rest: seq<Token>)
    requires Pending(cmd, left, out, g, rest)
    ensures DecodeGroup(Body(g) + Serialize(rest), 0, cmd, left, out) == Decoded(Apply(out, g + rest), Done)
    decreases |g| + |rest|, if left == 0 then 3 else 1
  {
    if left == 0 {
      GroupDone(cmd, out, g, rest);
      StreamDecodes(out, rest);
    } else if g == [] {
      GroupEnds(cmd, left, out, g, rest);
    } else {
      TokenDecodes(cmd, left, out, g, rest);
    }
  }

  /** A group that goes on with a token: the decoder outputs its expansion, then decodes the
      rest of the group and the stream. */
  lemma {:induction false} TokenDecodes(cmd: nat, left: nat, out: seq<byte>, g: seq<Token>, rest: seq<Token>)
    requires Pending(cmd, left, out, g, rest) && g != []
    ensures DecodeGroup(Body(g) + Serialize(rest), 0, cmd, left, out) == Decoded(Apply(out, g + rest), Done)
    decreases |g| + |rest|, 0
  {
    var cmd', left', next, g' := TokenNext(cmd, left, out, g, rest);
    GroupDecodes(cmd', left', next, g', rest);
  }

  /** A group with no flags left: the decoder goes on with the next command byte, where the
      stream rest starts. */
  lemma GroupDone(cmd: nat, out: seq<byte>, g: seq<Token>, rest: seq<Token>)
    requires Pending(cmd, 0, out, g, rest)
    ensures Body(g) + Serialize(rest) == Serialize(rest) && g + rest == rest && Decodable(out, rest)
    ensures DecodeGroup(Serialize(rest), 0, cmd, 0, out) == DecodeFrom(Serialize(rest), 0, out)
  {
    assert g == [];
  }

  /** A group with no pending token and flags left over is the last: the input ends, and
      the decoder reads a clear flag bit and stops there. */
  lemma GroupEnds(cmd: nat, left: nat, out: seq<byte>, g: seq<Token>, rest: seq<Token>)
    requires Pending(cmd, left, out, g, rest) && g == [] && 1 <= left
    ensures DecodeGroup(Body(g) + Serialize(rest), 0, cmd, left, out) == Decoded(Apply(out, g + rest), Done)
  {
    assert g + rest == [] && Body(g) + Serialize(rest) == [];
  }

  /** The decoder's step over the first pending token of a group: it outputs that token's
      expansion, giving next, and the rest of the group stays pending, with the command bits
      shifted down. */
  lemma TokenNext(cmd: nat, left: nat, out: seq<byte>, g: seq<Token>, rest: seq<Token>)
    returns (cmd': nat, left': nat, next: seq<byte>, g': seq<Token>)
    requires Pending(cmd, left, out, g, rest) && g != []
    ensures |g'| < |g| && Pending(cmd', left', next, g', rest)
    ensures Apply(out, g + rest) == Apply(next, g' + rest)
    ensures DecodeGroup(Body(g) + Serialize(rest), 0, cmd, left, out) == DecodeGroup(Body(g') + Serialize(rest), 0, cmd', left', next)
  {
    cmd', left', next, g' := PendingNext(cmd, left, out, g, rest);
    DecodeNext(cmd, left, out, g, rest);
  }

  /** The first pending token of a group reaches into out; expanding it gives next, and the
      rest of the group stays pending with the command bits shifted down. */
  lemma PendingNext(cmd: nat, left: nat, out: seq<byte>, g: seq<Token>, rest: seq<Token>)
    returns (cmd': nat, left': nat, next: seq<byte>, g': seq<Token>)
    requires Pending(cmd, left, out, g, rest) && g != []
    ensures Reaches(out, g[0]) && next == Expand(out, g[0])
    ensures cmd' == cmd / 2 && left' == left - 1 && g' == g[1..] && Pending(cmd', left', next, g', rest)
    ensures Apply(out, g + rest) == Apply(next, g' + rest)
  {
    next := ApplyHead(out, g, rest);
    FlagsHead(g);
    cmd', left', g' := cmd / 2, left - 1, g[1..];
  }

  /** The decoder reads the first pending token of a group under its command bit and
      outputs its expansion. */
  lemma DecodeNext(cmd: nat, left: nat, out: seq<byte>, g: seq<Token>, rest: seq<Token>)
    requires g != [] && 1 <= left && cmd == Flags(g) && Reaches(out, g[0])
    ensures DecodeGroup(Body(g) + Serialize(rest), 0, cmd, left, out)
         == DecodeGroup(Body(g[1..]) + Serialize(rest), 0, cmd / 2, left - 1, Expand(out, g[0]))
  {
    var s' := BodyHead(g, rest);
    FlagsHead(g);
    TokenStep(TokenBytes(g[0]), s', cmd, left, out, g[0]);
  }

  /** The bytes of a nonempty group and a stream after it start with those of its first
      token. */
  lemma BodyHead(g: seq<Token>, rest: seq<Token>) returns (s': seq<byte>)
    requires g != []
    ensures s' == Body(g[1..]) + Serialize(rest) && Body(g) + Serialize(rest) == TokenBytes(g[0]) + s'
  {
    s' := Body(g[1..]) + Serialize(rest);
  }

  /** Expanding a nonempty group and a stream after it is expanding its first token, giving
      next, and then the rest of both. */
  lemma ApplyHead(out: seq<byte>, g: seq<Token>, rest: seq<Token>) returns (next: seq<byte>)
    requires g != [] && Decodable(out, g + rest)
    ensures Reaches(out, g[0]) && next == Expand(out, g[0])
    ensures Decodable(next, g[1..] + rest) && Apply(out, g + rest) == Apply(next, g[1..] + rest)
  {
    assert (g + rest)[0] == g[0] && (g + rest)[1..] == g[1..] + rest;
    next := Expand(out, g[0]);
  }

  /** The decoder's step over a token whose bytes b come first, under its command bit: it
      outputs the token's expansion and goes on after b. */
  lemma TokenStep(b: seq<byte>, s': seq<byte>, cmd: nat, left: nat, out: seq<byte>, t: Token)
    requires b == TokenBytes(t) && 1 <= left && cmd % 2 == (if t.BackRef? then 1 else 0) && Reaches(out, t)
    ensures DecodeGroup(b + s', 0, cmd, left, out) == DecodeGroup(s', 0, cmd / 2, left - 1, Expand(out, t))
  {
    assert (b + s')[0] == b[0];
    if t.BackRef? {
      assert (b + s')[1] == b[1];
    }
    ShiftGroup(b, s', 0, cmd / 2, left - 1, Expand(out, t));
  }

  /** The decoder inverts serialisation: any decodable token stream, serialised, decodes to
      its expansion, with exit status 0. */
  lemma SerializeDecodes(ts: seq<Token>)
    requires Decodable([], ts)
    ensures Decode(Serialize(ts)) == Decoded(Apply([], ts), Done)
  {
    StreamDecodes([], ts);
  }

  // ---------------------------------------------------------------------------------------
  // The compressor's output

  /** The tokens the compressor writes for data: the walk back over the full table. */
  ghost function Chosen(data: seq<byte>): (ts: seq<Token>)
    ensures Decodable([], ts) && Apply([], ts) == data
  {
    TableConsistent(data);
    TraceExpands(data, Table(data, |data|), |data|);
    assert data[..|data|] == data;
    Trace(data, Table(data, |data|), |data|)
  }

  /** Round trip: what the compressor writes for data decodes to data, with exit status 0. */
  lemma CompressRoundTrip(data: seq<byte>)
    ensures Decode(Serialize(Chosen(data))) == Decoded(data, Done)
  {
    SerializeDecodes(Chosen(data));
  }

  /** The compressor's output is the cheapest cost of the whole input, in bits, rounded up
      to whole bytes: the buffer reconstruct allocates is exactly filled. */
  lemma CompressSize(data: seq<byte>)
    ensures |Serialize(Chosen(data))| == (Table(data, |data|)[|data|].cost + 7) / 8
  {
    TableConsistent(data);
    TraceCost(data, Table(data, |data|), |data|);
    SerializeSize(Chosen(data));
  }

  // ---------------------------------------------------------------------------------------
  // Optimality

  /** The table entry of a prefix costs at most 9 bits more than that of the prefix one
      byte shorter: a literal is always a candidate. */
  lemma StepLiteral(data: seq<byte>, k: nat)
    requires 1 <= k <= |data|
    ensures Table(data, k)[k].cost <= Table(data, k - 1)[k - 1].cost + 9
  {
    TableSnoc(data, k);
    ChooseValid(data, Table(data, k - 1), Min(Window, k));
  }

  /** The table entry of a prefix whose last l bytes repeat from d back costs at most 17
      bits more than that of the prefix l bytes shorter: that back-reference is a candidate. */
  lemma StepRef(data: seq<byte>, k: nat, l: nat, d: nat)
    requires 2 <= l <= Window && 1 <= d <= Window && l + d <= k <= |data| && Repeats(data, k, l, d)
    ensures Table(data, k)[k].cost <= Table(data, k - l)[k - l].cost + 17
  {
    var prev := Table(data, k - 1);
    TableSnoc(data, k);
    ChooseOptimal(data, prev, Min(Window, k), l, d);
    TablePrefix(data, k - l, k - 1);
    assert prev[k - l] == prev[..k - l + 1][k - l];
  }

  /** A back-reference that extends a prefix to a longer prefix of data copies bytes that
      repeat in data. */
  lemma RefRepeats(data: seq<byte>, k: nat, t: Token)
    requires t.BackRef? && 1 <= k <= |data| && Span(t) <= k
    requires Reaches(data[..k - Span(t)], t) && Expand(data[..k - Span(t)], t) == data[..k]
    ensures Repeats(data, k, t.mlen + 1, t.moff + 1)
  {
    var l, d, b := t.mlen + 1, t.moff + 1, k - Span(t);
    assert data[..k] == data[..b + l];
    CopyBackIff(data, b, d, l);
  }

  /** The table entry of a prefix costs no more than the entry of any shorter prefix it can
      be extended from by one token, plus that token. A back-reference of one byte costs 17
      bits, more than the literal of that byte. */
  lemma StepOptimal(data: seq<byte>, k: nat, t: Token)
    requires 1 <= k <= |data| && Span(t) <= k
    requires Reaches(data[..k - Span(t)], t) && Expand(data[..k - Span(t)], t) == data[..k]
    ensures Table(data, k)[k].cost <= Table(data, k - Span(t))[k - Span(t)].cost + Bits(t)
  {
    if Span(t) == 1 {
      StepLiteral(data, k);
    } else {
      RefRepeats(data, k, t);
      StepRef(data, k, t.mlen + 1, t.moff + 1);
    }
  }

  /** A nonempty decodable stream that expands to a prefix of data is a shorter such stream
      followed by one token that extends its prefix to the longer one. */
  lemma SplitLast(data: seq<byte>, ts: seq<Token>) returns (a: seq<Token>, t: Token)
    requires ts != [] && Decodable([], ts) && |Apply([], ts)| <= |data| && Apply([], ts) == data[..|Apply([], ts)|]
    ensures |a| < |ts| && Decodable([], a) && |Apply([], a)| <= |data| && Apply([], a) == data[..|Apply([], a)|]
    ensures var k := |Apply([], ts)|;
      1 <= k && Span(t) <= k && |Apply([], a)| == k - Span(t)
      && Reaches(data[..k - Span(t)], t) && Expand(data[..k - Span(t)], t) == data[..k]
    ensures TokensCost(ts) == TokensCost(a) + Bits(t)
  {
    a, t := ts[..|ts| - 1], ts[|ts| - 1];
    assert ts == a + [t];
    SplitStep(data, a, t);
  }

  /** SplitLast for a stream written as a + [t]. */
  lemma SplitStep(data: seq<byte>, a: seq<Token>, t: Token)
    requires Decodable([], a + [t]) && |Apply([], a + [t])| <= |data| && Apply([], a + [t]) == data[..|Apply([], a + [t])|]
    ensures Decodable([], a) && |Apply([], a)| <= |data| && Apply([], a) == data[..|Apply([], a)|]
    ensures var k := |Apply([], a + [t])|;
      1 <= k && Span(t) <= k && |Apply([], a)| == k - Span(t)
      && Reaches(data[..k - Span(t)], t) && Expand(data[..k - Span(t)], t) == data[..k]
    ensures TokensCost(a + [t]) == TokensCost(a) + Bits(t)
  {
    SnocDecodable([], a, t);
    ExpandPrefix(data, Apply([], a + [t]), Apply([], a), t);
    SnocCost(a, t);
  }

  /** When p expanded by t is a prefix x of data, so is p, and t expands the prefix of data
      as long as p into x. */
  lemma ExpandPrefix(data: seq<byte>, x: seq<byte>, p: seq<byte>, t: Token)
    requires Reaches(p, t) && x == Expand(p, t) && |x| <= |data| && x == data[..|x|]
    ensures |p| <= |data| && p == data[..|p|]
    ensures 1 <= |x| && Span(t) <= |x| && |p| == |x| - Span(t)
    ensures data[..|x| - Span(t)] == p && Expand(data[..|x| - Span(t)], t) == data[..|x|]
  {
    PrefixOfPrefix(data, x, p);
  }

  /** A prefix of a prefix of data is a prefix of data. */
  lemma PrefixOfPrefix(data: seq<byte>, x: seq<byte>, p: seq<byte>)
    requires |x| <= |data| && x == data[..|x|] && |p| <= |x| && x[..|p|] == p
    ensures p == data[..|p|]
  {
  }

  /** One more token costs its bits. */
  lemma SnocCost(a: seq<Token>, t: Token)
    ensures TokensCost(a + [t]) == TokensCost(a) + Bits(t)
  {
    BodyAppend(a, [t]);
    assert [t][1..] == [];
  }

  /** No decodable token stream that expands to a prefix of data costs fewer bits than the
      table entry of that prefix. */
  lemma {:induction false} TableOptimal(data: seq<byte>, ts: seq<Token>)
    requires Decodable([], ts) && |Apply([], ts)| <= |data| && Apply([], ts) == data[..|Apply([], ts)|]
    ensures Table(data, |Apply([], ts)|)[|Apply([], ts)|].cost <= TokensCost(ts)
    decreases |ts|
  {
    if ts != [] {
      var a, t := SplitLast(data, ts);
      TableOptimal(data, a);
      StepOptimal(data, |Apply([], ts)|, t);
    }
  }


  /** The compressor's choice is optimal: no decodable token stream that expands to data
      costs fewer bits, so none serialises to fewer bytes. */
  lemma CompressOptimal(data: seq<byte>, ts: seq<Token>)
    requires Decodable([], ts) && Apply([], ts) == data
    ensures TokensCost(Chosen(data)) <= TokensCost(ts)
    ensures |Serialize(Chosen(data))| <= |Serialize(ts)|
  {
    assert data[..|data|] == data;
    TableOptimal(data, ts);
    TableConsistent(data);
    TraceCost(data, Table(data, |data|), |data|);
    SerializeSize(Chosen(data));
    SerializeSize(ts);
  }

  // ---------------------------------------------------------------------------------------
  // The compressor's main

  /** The compressor end to end: compress_data fills the table, and reconstruct writes the
      stream, which decodes back to data; an input too long for the table fails with ENOMEM. */
  method CompressMain(data: seq<byte>) returns (r: Result<seq<byte>, Errno>)
    ensures r.Err? <==> |data| >= TooLong
    ensures r.Ok? ==> r.value == Serialize(Chosen(data))
    ensures r.Ok? ==> Decode(r.value) == Decoded(data, Done)
  {
    var best := CompressData(data);
    if best.Err? {
      return Err(best.error);
    }
    TableConsistent(data);
    var buf := Reconstruct(data, best.value);
    CompressRoundTrip(data);
    return Ok(buf[..]);
  }
}
