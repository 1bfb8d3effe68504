/** Bytes, big-endian 32-bit fields and in-place overwrites of a byte string. */
module Bytes {

  type byte = x: int | 0 <= x < 256

  const U32Limit: nat := 0x1_0000_0000

  /** The big-endian encoding of an unsigned 32-bit value (struct format '>L'). */
  function BE32(n: nat): (r: seq<byte>)
    requires n < U32Limit
    ensures |r| == 4
  {
    var q1 := n / 0x100;
    var q2 := q1 / 0x100;
    [q2 / 0x100, q2 % 0x100, q1 % 0x100, n % 0x100]
  }

  /** The unsigned 32-bit value stored big-endian at s[i..i+4] (struct format '>L'). */
  function ReadBE32(s: seq<byte>, i: nat): (n: nat)
    requires i + 4 <= |s|
    ensures n < U32Limit
  {
    var b0, b1, b2, b3: int := s[i], s[i + 1], s[i + 2], s[i + 3];
    ((b0 * 0x100 + b1) * 0x100 + b2) * 0x100 + b3
  }

  /** Reading back a written field gives the value written. */
  lemma ReadWriteBE32(n: nat)
    requires n < U32Limit
    ensures ReadBE32(BE32(n), 0) == n
  {
    var q1 := n / 0x100;
    var q2 := q1 / 0x100;
    assert n == q1 * 0x100 + n % 0x100;
    assert q1 == q2 * 0x100 + q1 % 0x100;
    assert q2 == q2 / 0x100 * 0x100 + q2 % 0x100;
  }

  /** A field holding the encoding of n reads back as n. */
  lemma ReadEncoded(s: seq<byte>, i: nat, n: nat)
    requires i + 4 <= |s| && n < U32Limit && s[i..i + 4] == BE32(n)
    ensures ReadBE32(s, i) == n
  {
    ReadWriteBE32(n);
    assert s[i] == BE32(n)[0] && s[i + 1] == BE32(n)[1] && s[i + 2] == BE32(n)[2] && s[i + 3] == BE32(n)[3];
  }

  /** A field reads the same in two strings that agree on its four bytes. */
  lemma ReadFramed(s: seq<byte>, s': seq<byte>, i: nat)
    requires i + 4 <= |s| && i + 4 <= |s'|
    requires forall k :: i <= k < i + 4 ==> s[k] == s'[k]
    ensures ReadBE32(s, i) == ReadBE32(s', i)
  {
    assert s[i] == s'[i] && s[i + 1] == s'[i + 1] && s[i + 2] == s'[i + 2] && s[i + 3] == s'[i + 3];
  }

  /** An erased field reads as 0xFFFFFFFF. */
  lemma ReadErased(s: seq<byte>, i: nat)
    requires i + 4 <= |s| && forall k :: i <= k < i + 4 ==> s[k] == 0xFF
    ensures ReadBE32(s, i) == 0xFFFF_FFFF
  {
    assert s[i] == 0xFF && s[i + 1] == 0xFF && s[i + 2] == 0xFF && s[i + 3] == 0xFF;
  }

  /** The smaller of two counts (Python's min). */
  function Min(a: nat, b: nat): nat {
    if a < b then a else b
  }

  /** n bytes of the flash erase value 0xFF. */
  function Ones(n: nat): (r: seq<byte>)
    ensures |r| == n && forall k :: 0 <= k < n ==> r[k] == 0xFF
  {
    seq(n, _ => 0xFF)
  }

  /** s with s[at..at+|w|] replaced by w, as struct.pack_into does on a bytearray. */
  function Overwrite(s: seq<byte>, at: nat, w: seq<byte>): (r: seq<byte>)
    requires at + |w| <= |s|
    ensures |r| == |s|
    decreases |w|
  {
    if |w| == 0 then s else Overwrite(s[at := w[0]], at + 1, w[1..])
  }

  /** An overwrite holds w in its window and leaves every byte outside it as it was. */
  lemma {:induction false} OverwriteSpec(s: seq<byte>, at: nat, w: seq<byte>)
    requires at + |w| <= |s|
    ensures forall k :: 0 <= k < at ==> Overwrite(s, at, w)[k] == s[k]
    ensures forall k :: at <= k < at + |w| ==> Overwrite(s, at, w)[k] == w[k - at]
    ensures forall k :: at + |w| <= k < |s| ==> Overwrite(s, at, w)[k] == s[k]
    decreases |w|
  {
    if |w| > 0 {
      var s1 := s[at := w[0]];
      OverwriteSpec(s1, at + 1, w[1..]);
      assert Overwrite(s, at, w)[at] == w[0];
    }
  }

  /** Writing one more byte just past an overwrite extends the overwrite by that byte. */
  lemma OverwriteExtend(s: seq<byte>, at: nat, w: seq<byte>, x: byte)
    requires at + |w| < |s|
    ensures Overwrite(s, at, w)[at + |w| := x] == Overwrite(s, at, w + [x])
  {
    var l := Overwrite(s, at, w)[at + |w| := x];
    var r := Overwrite(s, at, w + [x]);
    OverwriteSpec(s, at, w);
    OverwriteSpec(s, at, w + [x]);
    assert forall k :: 0 <= k < |s| ==> l[k] == r[k];
  }

  /** Two adjacent overwrites are one overwrite with both pieces. */
  lemma OverwriteConcat(s: seq<byte>, at: nat, w1: seq<byte>, w2: seq<byte>)
    requires at + |w1| + |w2| <= |s|
    ensures Overwrite(Overwrite(s, at, w1), at + |w1|, w2) == Overwrite(s, at, w1 + w2)
  {
    var m := Overwrite(s, at, w1);
    var l := Overwrite(m, at + |w1|, w2);
    var r := Overwrite(s, at, w1 + w2);
    OverwriteSpec(s, at, w1);
    OverwriteSpec(m, at + |w1|, w2);
    OverwriteSpec(s, at, w1 + w2);
    assert forall k :: 0 <= k < |s| ==> l[k] == r[k];
  }

  /** Writing the same bytes at the same place a second time changes nothing. */
  lemma OverwriteTwice(s: seq<byte>, at: nat, w: seq<byte>)
    requires at + |w| <= |s|
    ensures Overwrite(Overwrite(s, at, w), at, w) == Overwrite(s, at, w)
  {
    var m := Overwrite(s, at, w);
    OverwriteSpec(s, at, w);
    OverwriteSpec(m, at, w);
    assert forall k :: 0 <= k < |s| ==> Overwrite(m, at, w)[k] == m[k];
  }

  /** Writes to disjoint windows can be made in either order. */
  lemma OverwriteCommute(s: seq<byte>, a1: nat, w1: seq<byte>, a2: nat, w2: seq<byte>)
    requires a1 + |w1| <= a2 && a2 + |w2| <= |s|
    ensures Overwrite(Overwrite(s, a1, w1), a2, w2) == Overwrite(Overwrite(s, a2, w2), a1, w1)
  {
    var m1 := Overwrite(s, a1, w1);
    var m2 := Overwrite(s, a2, w2);
    OverwriteSpec(s, a1, w1);
    OverwriteSpec(s, a2, w2);
    OverwriteSpec(m1, a2, w2);
    OverwriteSpec(m2, a1, w1);
    assert forall k :: 0 <= k < |s| ==> Overwrite(m1, a2, w2)[k] == Overwrite(m2, a1, w1)[k];
  }

  /** Overwriting with nothing changes nothing. */
  lemma OverwriteEmpty(s: seq<byte>, at: nat)
    requires at <= |s|
    ensures Overwrite(s, at, []) == s
  {
  }
}
