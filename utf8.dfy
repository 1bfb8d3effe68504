/** Strict UTF-8 well-formedness, as Python's bytes.decode('utf-8') checks it
    (the well-formed byte sequences of the Unicode Standard, table 3-7). */
module Utf8 {
  import opened Bytes

  predicate InRange(b: byte, lo: byte, hi: byte) { lo <= b <= hi }

  /** Length of the well-formed sequence that starts s, or 0 when s does not start with one. */
  function LeadLength(s: seq<byte>): (n: nat)
    requires |s| > 0
    ensures n <= 4 && (n > 0 ==> n <= |s|)
  {
    var b0 := s[0];
    if b0 <= 0x7F then 1
    else if InRange(b0, 0xC2, 0xDF) then
      (if |s| >= 2 && InRange(s[1], 0x80, 0xBF) then 2 else 0)
    else if InRange(b0, 0xE0, 0xEF) then
      var lo: byte := if b0 == 0xE0 then 0xA0 else 0x80;
      var hi: byte := if b0 == 0xED then 0x9F else 0xBF;
      (if |s| >= 3 && InRange(s[1], lo, hi) && InRange(s[2], 0x80, 0xBF) then 3 else 0)
    else if InRange(b0, 0xF0, 0xF4) then
      var lo: byte := if b0 == 0xF0 then 0x90 else 0x80;
      var hi: byte := if b0 == 0xF4 then 0x8F else 0xBF;
      (if |s| >= 4 && InRange(s[1], lo, hi) && InRange(s[2], 0x80, 0xBF) && InRange(s[3], 0x80, 0xBF)
       then 4 else 0)
    else 0
  }

  /** s decodes without error. */
  predicate Valid(s: seq<byte>)
    decreases |s|
  {
    |s| == 0 || (LeadLength(s) > 0 && Valid(s[LeadLength(s)..]))
  }

  /** ASCII text is always well-formed UTF-8. */
  lemma {:induction false} AsciiValid(s: seq<byte>)
    requires forall k :: 0 <= k < |s| ==> s[k] < 0x80
    ensures Valid(s)
  {
    if |s| > 0 {
      assert LeadLength(s) == 1;
      AsciiValid(s[1..]);
    }
  }

  /** The second byte after lead bytes whose range table 3-7 narrows: no overlong three- or
      four-byte form (0xE0, 0xF0), no surrogate (0xED), nothing past U+10FFFF (0xF4). */
  predicate LeadFollowed(s: seq<byte>, i: nat)
    requires i < |s|
  {
    && (s[i] == 0xE0 ==> i + 1 < |s| && InRange(s[i + 1], 0xA0, 0xBF))
    && (s[i] == 0xED ==> i + 1 < |s| && InRange(s[i + 1], 0x80, 0x9F))
    && (s[i] == 0xF0 ==> i + 1 < |s| && InRange(s[i + 1], 0x90, 0xBF))
    && (s[i] == 0xF4 ==> i + 1 < |s| && InRange(s[i + 1], 0x80, 0x8F))
  }

  /** What decoding refuses, anywhere in the input: a continuation byte first, a sequence cut
      off at the end, the overlong lead bytes 0xC0 and 0xC1, the bytes 0xF5 to 0xFF, and an
      overlong, surrogate or out-of-range second byte. */
  lemma {:induction false} RejectsMalformed(s: seq<byte>)
    requires Valid(s)
    ensures |s| > 0 ==> !InRange(s[0], 0x80, 0xBF) && s[|s| - 1] < 0xC0
    ensures forall i :: 0 <= i < |s| ==> s[i] != 0xC0 && s[i] != 0xC1 && s[i] < 0xF5
    ensures forall i :: 0 <= i < |s| ==> LeadFollowed(s, i)
    decreases |s|
  {
    if |s| > 0 {
      var n := LeadLength(s);
      var r := s[n..];
      RejectsMalformed(r);
      forall i | 0 <= i < |s|
        ensures s[i] != 0xC0 && s[i] != 0xC1 && s[i] < 0xF5 && LeadFollowed(s, i)
      {
        if i >= n {
          assert s[i] == r[i - n];
          if i + 1 < |s| {
            assert s[i + 1] == r[i - n + 1];
          }
          assert LeadFollowed(r, i - n);
        }
      }
      if n < |s| {
        assert s[|s| - 1] == r[|r| - 1];
      }
    }
  }

  /** Well-formed text stays well-formed when more well-formed text follows it. */
  lemma {:induction false} ValidConcat(a: seq<byte>, b: seq<byte>)
    requires Valid(a) && Valid(b)
    ensures Valid(a + b)
    decreases |a|
  {
    if |a| > 0 {
      var n := LeadLength(a);
      var c := a + b;
      assert Valid(a[n..]);
      ValidConcat(a[n..], b);
      LeadLengthExtends(a, b);
      DropConcat(a, b, n);
      assert LeadLength(c) == n && Valid(c[n..]);
    } else {
      assert a + b == b;
    }
  }

  /** A well-formed sequence at the start keeps its length whatever follows it. */
  lemma LeadLengthExtends(a: seq<byte>, b: seq<byte>)
    requires |a| > 0 && LeadLength(a) > 0
    ensures LeadLength(a + b) == LeadLength(a)
  {
    assert forall k :: 0 <= k < |a| ==> (a + b)[k] == a[k];
  }

  /** Dropping a prefix of the first part of a concatenation. */
  lemma DropConcat(a: seq<byte>, b: seq<byte>, n: nat)
    requires n <= |a|
    ensures (a + b)[n..] == a[n..] + b
  {
  }
}
