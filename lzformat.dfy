/** The token stream shared by the EEPROM compressor (reversing/rpi-eeprom-compress/compress.c)
    and its decoder (reversing/rpi-eeprom-compress/uncompress.c): literals and back-references,
    what they expand to, and how they are laid out as bytes behind command bytes. */
module LzFormat {
  import opened Bytes

  /** One token: a raw byte, or a copy of mlen + 1 bytes taken moff + 1 bytes back. */
  datatype Token = Literal(value: byte) | BackRef(moff: byte, mlen: byte)

  /** How many output bytes a token produces. */
  function Span(t: Token): nat {
    match t
    case Literal(_) => 1
    case BackRef(_, mlen) => mlen + 1
  }

  /** How many bits a token costs in the stream: 8 per byte of the token plus its flag bit. */
  function Bits(t: Token): nat {
    if t.Literal? then 9 else 17
  }

  /** out extended by n bytes, each copied from d bytes before the position it is written
      to, one at a time, so that an overlapping copy repeats the bytes it has just written. */
  function CopyBack(out: seq<byte>, d: nat, n: nat): (r: seq<byte>)
    requires 1 <= d <= |out|
    ensures |r| == |out| + n
    decreases n
  {
    if n == 0 then out else CopyBack(out + [out[|out| - d]], d, n - 1)
  }

  /** A copy only appends: what was output before stays. */
  lemma {:induction false} CopyBackKeeps(out: seq<byte>, d: nat, n: nat)
    requires 1 <= d <= |out|
    ensures CopyBack(out, d, n)[..|out|] == out
    decreases n
  {
    if n > 0 {
      var out' := out + [out[|out| - d]];
      CopyBackKeeps(out', d, n - 1);
      assert CopyBack(out, d, n)[..|out|] == CopyBack(out', d, n - 1)[..|out'|][..|out|];
    }
  }

  /** Copying l bytes from d back onto data[..b] gives data[..b + l] exactly when those l
      bytes of data repeat the l bytes d positions earlier. */
  lemma {:induction false} CopyBackIff(data: seq<byte>, b: nat, d: nat, l: nat)
    requires 1 <= d <= b && b + l <= |data|
    ensures CopyBack(data[..b], d, l) == data[..b + l] <==> data[b..b + l] == data[b - d..b - d + l]
    decreases l
  {
    if l > 0 {
      var s := data[..b] + [data[b - d]];
      assert CopyBack(data[..b], d, l) == CopyBack(s, d, l - 1);
      SliceCons(data, b, b - d, l);
      if data[b] == data[b - d] {
        assert s == data[..b + 1];
        CopyBackIff(data, b + 1, d, l - 1);
        assert CopyBack(s, d, l - 1) == data[..b + l] <==> data[b + 1..b + l] == data[b + 1 - d..b - d + l];
      } else {
        CopyBackKeeps(s, d, l - 1);
        var r := CopyBack(s, d, l - 1);
        assert r[b] == r[..b + 1][b] == s[b] == data[b - d];
        assert data[..b + l][b] == data[b];
        assert r != data[..b + l];
        assert data[b..b + l] != data[b - d..b - d + l];
      }
    }
  }

  /** Two runs of l bytes of a are equal exactly when their first bytes are and the rest
      of the runs are. */
  lemma SliceCons(a: seq<byte>, i: nat, j: nat, l: nat)
    requires 0 < l && i + l <= |a| && j + l <= |a|
    ensures a[i..i + l] == a[j..j + l] <==> a[i] == a[j] && a[i + 1..i + l] == a[j + 1..j + l]
  {
    assert a[i..i + l] == [a[i]] + a[i + 1..i + l];
    assert a[j..j + l] == [a[j]] + a[j + 1..j + l];
    if a[i..i + l] == a[j..j + l] {
      assert a[i..i + l][0] == a[j..j + l][0];
      assert a[i..i + l][1..] == a[j..j + l][1..];
    }
  }

  /** A token can be expanded after out: a back-reference must not reach before its start. */
  predicate Reaches(out: seq<byte>, t: Token) {
    t.Literal? || t.moff + 1 <= |out|
  }

  /** out followed by what the token stands for. */
  function Expand(out: seq<byte>, t: Token): (r: seq<byte>)
    requires Reaches(out, t)
    ensures |r| == |out| + Span(t) && r[..|out|] == out
  {
    match t
    case Literal(b) => out + [b]
    case BackRef(moff, mlen) =>
      CopyBackKeeps(out, moff + 1, mlen + 1);
      CopyBack(out, moff + 1, mlen + 1)
  }

  /** Every token of ts can be expanded in turn after out. */
  predicate Decodable(out: seq<byte>, ts: seq<Token>)
    decreases |ts|
  {
    ts == [] || (Reaches(out, ts[0]) && Decodable(Expand(out, ts[0]), ts[1..]))
  }

  /** out followed by the expansion of every token of ts, in order. */
  function Apply(out: seq<byte>, ts: seq<Token>): (r: seq<byte>)
    requires Decodable(out, ts)
    ensures |r| >= |out| && r[..|out|] == out
    decreases |ts|
  {
    if ts == [] then out else Apply(Expand(out, ts[0]), ts[1..])
  }

  /** Appending a token that reaches into what a stream produced extends the stream by that
      token's expansion. */
  lemma {:induction false} DecodableSnoc(out: seq<byte>, a: seq<Token>, t: Token)
    requires Decodable(out, a) && Reaches(Apply(out, a), t)
    ensures Decodable(out, a + [t]) && Apply(out, a + [t]) == Expand(Apply(out, a), t)
    decreases |a|
  {
    if a == [] {
      assert a + [t] == [t];
      assert [t][1..] == [];
    } else {
      assert (a + [t])[1..] == a[1..] + [t];
      DecodableSnoc(Expand(out, a[0]), a[1..], t);
    }
  }

  /** A decodable stream that ends in t is a decodable stream followed by a token that
      reaches into its output. */
  lemma {:induction false} SnocDecodable(out: seq<byte>, a: seq<Token>, t: Token)
    requires Decodable(out, a + [t])
    ensures Decodable(out, a) && Reaches(Apply(out, a), t)
    ensures Apply(out, a + [t]) == Expand(Apply(out, a), t)
    decreases |a|
  {
    if a == [] {
      assert a + [t] == [t];
      assert [t][1..] == [];
    } else {
      assert (a + [t])[0] == a[0] && (a + [t])[1..] == a[1..] + [t];
      SnocDecodable(Expand(out, a[0]), a[1..], t);
    }
  }

  // ---------------------------------------------------------------------------------------
  // Byte layout

  /** The bytes of one token: a literal is its byte, a back-reference is moff then mlen. */
  function TokenBytes(t: Token): (r: seq<byte>)
    ensures |r| * 8 + 1 == Bits(t)
  {
    match t
    case Literal(b) => [b]
    case BackRef(moff, mlen) => [moff, mlen]
  }

  /** The token bytes of ts, one token after the other, without command bytes. */
  function Body(ts: seq<Token>): seq<byte>
    decreases |ts|
  {
    if ts == [] then [] else TokenBytes(ts[0]) + Body(ts[1..])
  }

  /** The bit cost of a token stream, summed token by token. */
  function TokensCost(ts: seq<Token>): nat
    decreases |ts|
  {
    if ts == [] then 0 else Bits(ts[0]) + TokensCost(ts[1..])
  }

  lemma {:induction false} BodyAppend(a: seq<Token>, b: seq<Token>)
    ensures Body(a + b) == Body(a) + Body(b)
    ensures TokensCost(a + b) == TokensCost(a) + TokensCost(b)
    decreases |a|
  {
    if a != [] {
      assert (a + b)[0] == a[0] && (a + b)[1..] == a[1..] + b;
      BodyAppend(a[1..], b);
    } else {
      assert a + b == b;
    }
  }

  /** Every token costs a flag bit on top of its bytes. */
  lemma {:induction false} CostIsBytesAndFlags(ts: seq<Token>)
    ensures TokensCost(ts) == 8 * |Body(ts)| + |ts|
    decreases |ts|
  {
    if ts != [] {
      CostIsBytesAndFlags(ts[1..]);
    }
  }

  function Pow2(n: nat): (r: nat)
    ensures r >= 1
  {
    if n == 0 then 1 else 2 * Pow2(n - 1)
  }

  lemma {:induction false} Pow2Grows(m: nat, n: nat)
    requires m <= n
    ensures Pow2(m) <= Pow2(n)
    decreases n
  {
    if m < n {
      Pow2Grows(m, n - 1);
    }
  }

  /** The command bits of a group: bit i is set exactly when the group's token i is a
      back-reference, so the group's first token sits in bit 0. */
  function Flags(ts: seq<Token>): (r: nat)
    ensures r < Pow2(|ts|)
    decreases |ts|
  {
    if ts == [] then 0 else (if ts[0].BackRef? then 1 else 0) + 2 * Flags(ts[1..])
  }

  /** A group of at most 8 tokens has its flags in one byte. */
  lemma FlagsFitByte(ts: seq<Token>)
    requires |ts| <= 8
    ensures Flags(ts) < 256
  {
    Pow2Grows(|ts|, 8);
  }

  /** The size of the first group of ts: 8 tokens, or all of them when fewer remain. */
  function GroupLen(ts: seq<Token>): (g: nat)
    ensures g <= 8 && g <= |ts| && (g < 8 ==> g == |ts|)
  {
    if |ts| < 8 then |ts| else 8
  }

  /** The stream reconstruct writes: for each group of 8 tokens counted from the start, the
      command byte of the group followed by the group's token bytes. */
  function Serialize(ts: seq<Token>): seq<byte>
    decreases |ts|
  {
    if ts == [] then []
    else
      var g := GroupLen(ts);
      FlagsFitByte(ts[..g]);
      [Flags(ts[..g])] + Body(ts[..g]) + Serialize(ts[g..])
  }

  /** The serialised stream has one command byte per started group of 8 tokens; so it is
      the token stream's bit cost rounded up to whole bytes. */
  lemma {:induction false} SerializeSize(ts: seq<Token>)
    ensures |Serialize(ts)| == |Body(ts)| + (|ts| + 7) / 8
    ensures |Serialize(ts)| == (TokensCost(ts) + 7) / 8
    decreases |ts|
  {
    CostIsBytesAndFlags(ts);
    if ts != [] {
      var g := GroupLen(ts);
      assert ts == ts[..g] + ts[g..];
      BodyAppend(ts[..g], ts[g..]);
      SerializeSize(ts[g..]);
    }
  }
}
