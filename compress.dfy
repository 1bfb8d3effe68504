/** The EEPROM compressor (reversing/rpi-eeprom-compress/compress.c): a dynamic program over
    the prefixes of the input that records, for each prefix, the cheapest way in bits to end
    it with a literal or a back-reference, then a backward walk over that table that writes
    the token stream with its command bytes. */
module Compress {
  import opened Wrappers
  import opened Bytes
  import opened LzFormat

  /** One entry of best[]: the cheapest cost in bits of the prefix, and its last token
      (mlen == 0 for a literal, otherwise a copy of mlen + 1 bytes from moff + 1 back). */
  datatype Backref = Backref(cost: nat, mlen: byte, moff: byte)

  datatype Errno = ENOMEM

  /** sizeof(struct backref) on a 64-bit target: an 8-byte size_t and two bytes, padded. */
  const BackrefSize: nat := 16
  const SizeMax: nat := 0x1_0000_0000_0000_0000 - 1

  /** compress_data refuses inputs of this length and more before allocating best[]. */
  const TooLong: nat := SizeMax / BackrefSize - 1

  /** How far back, and how long, a back-reference can be. */
  const Window: nat := 256

  /** The l bytes ending at k repeat the l bytes ending d earlier. */
  predicate Repeats(data: seq<byte>, k: nat, l: nat, d: nat)
    requires l + d <= k <= |data|
  {
    data[k - l..k] == data[k - l - d..k - d]
  }

  /** The distances from d up to the window, searched nearest first. */
  function NearestFrom(data: seq<byte>, k: nat, l: nat, d: nat): (r: Option<nat>)
    requires 1 <= d && l <= k <= |data|
    ensures r.Some? ==> d <= r.value <= Window && l + r.value <= k && Repeats(data, k, l, r.value)
    decreases Window + 1 - d
  {
    if d > Window || l + d > k then None
    else if Repeats(data, k, l, d) then Some(d)
    else NearestFrom(data, k, l, d + 1)
  }

  /** The match finder, which the source implements with a trie of earlier suffixes: the
      nearest earlier occurrence, at most Window bytes back, of the l bytes ending at k. */
  function Nearest(data: seq<byte>, k: nat, l: nat): (r: Option<nat>)
    requires l <= k <= |data|
    ensures r.Some? ==> 1 <= r.value <= Window && l + r.value <= k && Repeats(data, k, l, r.value)
  {
    NearestFrom(data, k, l, 1)
  }

  lemma {:induction false} NearestFromFinds(data: seq<byte>, k: nat, l: nat, d: nat, e: nat)
    requires 1 <= d <= e <= Window && l + e <= k <= |data| && Repeats(data, k, l, e)
    ensures NearestFrom(data, k, l, d).Some? && NearestFrom(data, k, l, d).value <= e
    decreases e - d
  {
    if !Repeats(data, k, l, d) {
      NearestFromFinds(data, k, l, d + 1, e);
    }
  }

  /** The match finder misses no repeat in the window, and the distance it reports is the
      nearest: no repeat is closer. */
  lemma NearestFinds(data: seq<byte>, k: nat, l: nat, e: nat)
    requires 1 <= e <= Window && l + e <= k <= |data| && Repeats(data, k, l, e)
    ensures Nearest(data, k, l).Some? && Nearest(data, k, l).value <= e
  {
    NearestFromFinds(data, k, l, 1, e);
  }

  /** The entry for the prefix of length |prev| chosen among a literal and the
      back-references of lengths 2 .. upTo, given the entries prev of the shorter prefixes.
      A candidate replaces the choice so far only when it is strictly cheaper. */
  function Choose(data: seq<byte>, prev: seq<Backref>, upTo: nat): Backref
    requires 1 <= |prev| <= |data| && upTo <= Window && upTo <= |prev|
    decreases upTo
  {
    if upTo < 2 then Backref(prev[|prev| - 1].cost + 9, 0, 0)
    else Candidate(prev, upTo, Nearest(data, |prev|, upTo), Choose(data, prev, upTo - 1))
  }

  /** The choice acc so far, or the back-reference of length l to the repeat found, when
      there is one and it is strictly cheaper. */
  function Candidate(prev: seq<Backref>, l: nat, found: Option<nat>, acc: Backref): Backref
    requires 2 <= l <= Window && l <= |prev|
    requires found.Some? ==> 1 <= found.value <= Window
  {
    var k := |prev|;
    match found
    case Some(d) =>
      if prev[k - l].cost + 17 < acc.cost then Backref(prev[k - l].cost + 17, l - 1, d - 1)
      else acc
    case None => acc
  }

  /** best[0 .. n] as compress_data fills it for data. */
  function Table(data: seq<byte>, n: nat): (r: seq<Backref>)
    requires n <= |data|
    ensures |r| == n + 1
  {
    if n == 0 then [Backref(0, 0, 0)]
    else
      var t := Table(data, n - 1);
      t + [Choose(data, t, Min(Window, n))]
  }

  /** An entry e for the prefix of length |prev| that reconstruct can rely on, given the
      entries prev of the shorter prefixes: a literal costs 9 bits more than the prefix one
      shorter; a back-reference copies 2 to 256 bytes that repeat from at most 256 bytes
      back and from within the prefix, and costs 17 bits more than the prefix it extends. */
  ghost predicate ValidEntry(data: seq<byte>, prev: seq<Backref>, e: Backref)
    requires 1 <= |prev| <= |data|
  {
    var k := |prev|;
    if e.mlen == 0 then e.cost == prev[k - 1].cost + 9
    else
      && e.mlen + 1 + e.moff + 1 <= k
      && e.cost == prev[k - e.mlen - 1].cost + 17
      && Repeats(data, k, e.mlen + 1, e.moff + 1)
  }

  /** Entry k of a whole table is valid with respect to the entries before it. */
  ghost predicate EntryOk(data: seq<byte>, best: seq<Backref>, k: nat)
    requires 1 <= k < |best| <= |data| + 1
  {
    var e := best[k];
    if e.mlen == 0 then e.cost == best[k - 1].cost + 9
    else
      && e.mlen + 1 + e.moff + 1 <= k
      && e.cost == best[k - e.mlen - 1].cost + 17
      && Repeats(data, k, e.mlen + 1, e.moff + 1)
  }

  /** A whole table reconstruct can walk: best[0] costs nothing and every later entry is
      valid with respect to the entries before it. */
  ghost predicate Consistent(data: seq<byte>, best: seq<Backref>) {
    && |best| == |data| + 1 && best[0].cost == 0
    && forall k :: 1 <= k < |best| ==> EntryOk(data, best, k)
  }

  /** What a choice among a literal and the back-references of lengths 2 .. upTo is: a
      literal costing 9 bits more than the prefix one shorter, or a valid back-reference of
      length at most upTo that is strictly cheaper than that literal. */
  ghost predicate ChoiceOk(data: seq<byte>, prev: seq<Backref>, upTo: nat, r: Backref)
    requires 1 <= |prev| <= |data|
  {
    && ValidEntry(data, prev, r)
    && r.cost <= prev[|prev| - 1].cost + 9
    && (r.mlen == 0 ==> r.moff == 0)
    && (r.mlen != 0 ==> r.mlen + 1 <= upTo && r.cost < prev[|prev| - 1].cost + 9)
  }

  /** Considering the back-reference of length l to the repeat the match finder found keeps
      the choice valid. */
  lemma CandidateValid(data: seq<byte>, prev: seq<Backref>, l: nat, found: Option<nat>, acc: Backref)
    requires 1 <= |prev| <= |data| && 2 <= l <= Window && l <= |prev|
    requires found.Some? ==> 1 <= found.value <= Window && l + found.value <= |prev| && Repeats(data, |prev|, l, found.value)
    requires ChoiceOk(data, prev, l - 1, acc)
    ensures ChoiceOk(data, prev, l, Candidate(prev, l, found, acc))
  {
    var k := |prev|;
    if found.Some? && prev[k - l].cost + 17 < acc.cost {
      var r := Backref(prev[k - l].cost + 17, l - 1, found.value - 1);
      assert Candidate(prev, l, found, acc) == r;
      assert r.mlen + 1 == l && r.moff + 1 == found.value;
    }
  }

  /** The choice Choose makes is a literal, or a valid back-reference of length at most upTo
      that is strictly cheaper than the literal. */
  lemma {:induction false} ChooseValid(data: seq<byte>, prev: seq<Backref>, upTo: nat)
    requires 1 <= |prev| <= |data| && upTo <= Window && upTo <= |prev|
    ensures ChoiceOk(data, prev, upTo, Choose(data, prev, upTo))
    decreases upTo
  {
    if upTo >= 2 {
      ChooseValid(data, prev, upTo - 1);
      CandidateValid(data, prev, upTo, Nearest(data, |prev|, upTo), Choose(data, prev, upTo - 1));
    }
  }

  /** The choice is optimal: no back-reference of length 2 .. upTo to any repeat within the
      window ends the prefix more cheaply. */
  lemma {:induction false} ChooseOptimal(data: seq<byte>, prev: seq<Backref>, upTo: nat, l: nat, d: nat)
    requires 1 <= |prev| <= |data| && upTo <= Window && upTo <= |prev|
    requires 2 <= l <= upTo && 1 <= d <= Window && l + d <= |prev| && Repeats(data, |prev|, l, d)
    ensures Choose(data, prev, upTo).cost <= prev[|prev| - l].cost + 17
    decreases upTo
  {
    if l < upTo {
      ChooseOptimal(data, prev, upTo - 1, l, d);
    } else {
      NearestFinds(data, |prev|, l, d);
    }
  }

  /** The table for n bytes is the table for n - 1 bytes with the choice for n appended. */
  lemma TableSnoc(data: seq<byte>, n: nat)
    requires 1 <= n <= |data|
    ensures Table(data, n)[..n] == Table(data, n - 1)
    ensures Table(data, n)[n] == Choose(data, Table(data, n - 1), Min(Window, n))
  {
    var t := Table(data, n - 1);
    var c := Choose(data, t, Min(Window, n));
    assert Table(data, n) == t + [c];
  }

  /** A table's prefixes are the tables of the shorter inputs. */
  lemma {:induction false} TablePrefix(data: seq<byte>, m: nat, n: nat)
    requires m <= n <= |data|
    ensures Table(data, n)[..m + 1] == Table(data, m)
    decreases n
  {
    if m < n {
      TablePrefix(data, m, n - 1);
      TableSnoc(data, n);
      var a, b := Table(data, n), Table(data, n - 1);
      assert a[..m + 1] == a[..n][..m + 1] == b[..m + 1];
    }
  }

  /** Entry k of the table is the choice made from the entries before it. */
  lemma TableEntry(data: seq<byte>, n: nat, k: nat)
    requires 1 <= k <= n <= |data|
    ensures Table(data, n)[..k] == Table(data, k - 1)
    ensures Table(data, n)[k] == Choose(data, Table(data, k - 1), Min(Window, k))
  {
    TablePrefix(data, k, n);
    TablePrefix(data, k - 1, n);
    assert Table(data, n)[k] == Table(data, k)[k];
  }

  /** An entry valid with respect to the entries before it is valid in the whole table. */
  lemma EntryInTable(data: seq<byte>, t: seq<Backref>, k: nat)
    requires 1 <= k < |t| <= |data| + 1 && ValidEntry(data, t[..k], t[k])
    ensures EntryOk(data, t, k)
  {
    var e, prev := t[k], t[..k];
    assert prev[k - 1] == t[k - 1];
    if e.mlen != 0 {
      assert prev[k - e.mlen - 1] == t[k - e.mlen - 1];
    }
  }

  /** The table compress_data fills is consistent: every entry is a literal or a genuine
      back-reference within the window, costed from the entry it extends. */
  lemma TableConsistent(data: seq<byte>)
    ensures Consistent(data, Table(data, |data|))
  {
    var t := Table(data, |data|);
    TablePrefix(data, 0, |data|);
    assert t[0] == t[..1][0];
    forall k | 1 <= k < |t|
      ensures EntryOk(data, t, k)
    {
      TableEntry(data, |data|, k);
      var prev := Table(data, k - 1);
      ChooseValid(data, prev, Min(Window, k));
      assert t[..k] == prev;
      EntryInTable(data, t, k);
    }
  }

  /** No prefix costs more than 9 bits a byte, so the size_t costs of the source cannot
      wrap for inputs below the length it refuses. */
  lemma {:induction false} TableCostBound(data: seq<byte>, n: nat)
    requires n <= |data|
    ensures Table(data, n)[n].cost <= 9 * n
    decreases n
  {
    if n > 0 {
      TableCostBound(data, n - 1);
      TableEntry(data, n, n);
      ChooseValid(data, Table(data, n - 1), Min(Window, n));
    }
  }

  /** One round of the outer loop of compress_data, given the entries prev already filled:
      the entry for the prefix of length |prev|, starting from a literal and scanning the back-reference lengths the window
      allows; a candidate is kept only when it is strictly cheaper. The trie lookup of the
      source is the match finder Nearest. */
  method ChooseEntry(data: seq<byte>, prev: seq<Backref>) returns (e: Backref)
    requires 1 <= |prev| <= |data|
    ensures e == Choose(data, prev, Min(Window, |prev|))
  {
    var suffLen := |prev|;
    var minCost: nat := prev[suffLen - 1].cost + 9;
    var minMlen: byte := 0;
    var minMoff: byte := 0;
    var bound := if suffLen < Window then 0 else suffLen - Window;
    for l := 2 to suffLen - bound + 1
      invariant Backref(minCost, minMlen, minMoff) == Choose(data, prev, l - 1)
    {
      minCost, minMlen, minMoff := ConsiderLength(data, prev, l, minCost, minMlen, minMoff);
    }
    assert suffLen - bound == Min(Window, suffLen);
    return Backref(minCost, minMlen, minMoff);
  }

  /** One pass of the length loop: a repeat of the l bytes ending the prefix replaces the
      minimum so far when its back-reference is strictly cheaper. */
  method ConsiderLength(data: seq<byte>, prev: seq<Backref>, l: nat, minCost: nat, minMlen: byte, minMoff: byte)
    returns (minCost': nat, minMlen': byte, minMoff': byte)
    requires 2 <= l <= Window && l <= |prev| <= |data|
    ensures Backref(minCost', minMlen', minMoff')
         == Candidate(prev, l, Nearest(data, |prev|, l), Backref(minCost, minMlen, minMoff))
  {
    minCost', minMlen', minMoff' := minCost, minMlen, minMoff;
    var found := Nearest(data, |prev|, l);
    if found.Some? && prev[|prev| - l].cost + 17 < minCost {
      minCost', minMlen', minMoff' := prev[|prev| - l].cost + 17, l - 1, found.value - 1;
    }
  }

  /** compress_data: fills best[0 .. |data|] prefix by prefix. Inputs of TooLong bytes or
      more fail with ENOMEM before any allocation. */
  method CompressData(data: seq<byte>) returns (r: Result<array<Backref>, Errno>)
    ensures r.Err? <==> |data| >= TooLong
    ensures r.Ok? ==> r.value.Length == |data| + 1 && r.value[..] == Table(data, |data|)
  {
    if |data| >= TooLong {
      return Err(ENOMEM);
    }
    var best := new Backref[|data| + 1](_ => Backref(0, 0, 0));
    best[0] := Backref(0, 0, 0);
    var suffLen := 1;
    while suffLen <= |data|
      invariant 1 <= suffLen <= |data| + 1
      invariant best[..suffLen] == Table(data, suffLen - 1)
    {
      FillEntry(data, best, suffLen);
      suffLen := suffLen + 1;
    }
    assert best[..] == best[..|data| + 1];
    return Ok(best);
  }

  /** One pass of the outer loop: best[suffLen] is chosen from the entries before it. */
  method FillEntry(data: seq<byte>, best: array<Backref>, suffLen: nat)
    requires 1 <= suffLen <= |data| && best.Length == |data| + 1
    requires best[..suffLen] == Table(data, suffLen - 1)
    modifies best
    ensures best[..suffLen + 1] == Table(data, suffLen)
  {
    ghost var prefix := best[..suffLen];
    var e := ChooseEntry(data, best[..suffLen]);
    best[suffLen] := e;
    assert best[..suffLen + 1] == prefix + [e];
    TableSnoc(data, suffLen);
  }

  // ---------------------------------------------------------------------------------------
  // reconstruct

  /** The token entry k of a table records: a literal of the prefix's last byte, or the
      back-reference it names. */
  function LastToken(data: seq<byte>, best: seq<Backref>, k: nat): Token
    requires 1 <= k < |best| == |data| + 1
  {
    if best[k].mlen == 0 then Literal(data[k - 1]) else BackRef(best[k].moff, best[k].mlen)
  }

  /** The tokens reconstruct walks back from entry k of a consistent table: the prefix of
      length k ends with the token entry k records, preceded by the tokens of the prefix
      that token extends. */
  ghost function Trace(data: seq<byte>, best: seq<Backref>, k: nat): (ts: seq<Token>)
    requires Consistent(data, best) && k < |best|
    decreases k
  {
    if k == 0 then []
    else
      var t := LastToken(data, best, k);
      assert EntryOk(data, best, k);
      Trace(data, best, k - Span(t)) + [t]
  }

  /** The walk back from entry k costs what the table says. */
  lemma {:induction false} TraceCost(data: seq<byte>, best: seq<Backref>, k: nat)
    requires Consistent(data, best) && k < |best|
    ensures TokensCost(Trace(data, best, k)) == best[k].cost
    decreases k
  {
    if k > 0 {
      var t := LastToken(data, best, k);
      assert EntryOk(data, best, k);
      var a := Trace(data, best, k - Span(t));
      TraceCost(data, best, k - Span(t));
      BodyAppend(a, [t]);
      assert TokensCost([t]) == Bits(t);
    }
  }

  /** A literal of the next input byte extends a prefix by that byte. */
  lemma LiteralExpands(data: seq<byte>, k: nat)
    requires 1 <= k <= |data|
    ensures Expand(data[..k - 1], Literal(data[k - 1])) == data[..k]
  {
    assert data[..k] == data[..k - 1] + [data[k - 1]];
  }

  /** A back-reference to a repeat extends a prefix by the repeated bytes. */
  lemma RefExpands(data: seq<byte>, k: nat, l: nat, d: nat)
    requires 1 <= d && l + d <= k <= |data| && 1 <= l <= Window && d <= Window && Repeats(data, k, l, d)
    ensures Reaches(data[..k - l], BackRef(d - 1, l - 1))
    ensures Expand(data[..k - l], BackRef(d - 1, l - 1)) == data[..k]
  {
    assert data[k - l..k] == data[k - l - d..k - d];
    CopyBackIff(data, k - l, d, l);
  }

  /** The token entry k records expands the prefix it extends to the prefix of length k. */
  lemma LastTokenExpands(data: seq<byte>, best: seq<Backref>, k: nat)
    requires Consistent(data, best) && 1 <= k < |best|
    ensures Span(LastToken(data, best, k)) <= k
    ensures Reaches(data[..k - Span(LastToken(data, best, k))], LastToken(data, best, k))
    ensures Expand(data[..k - Span(LastToken(data, best, k))], LastToken(data, best, k)) == data[..k]
  {
    assert EntryOk(data, best, k);
    var e := best[k];
    if e.mlen == 0 {
      LiteralExpands(data, k);
    } else {
      RefExpands(data, k, e.mlen + 1, e.moff + 1);
    }
  }

  /** The walk back from entry k expands, from an empty history, to exactly the first k
      bytes of the input. */
  lemma {:induction false} TraceExpands(data: seq<byte>, best: seq<Backref>, k: nat)
    requires Consistent(data, best) && k < |best|
    ensures Decodable([], Trace(data, best, k)) && Apply([], Trace(data, best, k)) == data[..k]
    decreases k
  {
    if k > 0 {
      var t := LastToken(data, best, k);
      LastTokenExpands(data, best, k);
      var a := Trace(data, best, k - Span(t));
      assert Trace(data, best, k) == a + [t];
      TraceExpands(data, best, k - Span(t));
      var prefix := data[..k - Span(t)];
      assert Apply([], a) == prefix;
      assert Reaches(prefix, t);
      DecodableSnoc([], a, t);
    }
  }

  /** Where the group of 8 tokens (counted from the start) that token j falls in ends, when
      the tokens from j on are already written: j itself when j starts a group. */
  function GroupEnd(j: nat, n: nat): nat {
    if j % 8 == 0 then j else Min(j - j % 8 + 8, n)
  }

  /** What reconstruct has produced once the tokens from j on are handled: the bytes from
      the write pointer on are the tokens of j's unfinished group followed by the complete
      groups after it, and cmd holds the flags of that unfinished group. */
  ghost predicate Progress(ts: seq<Token>, j: nat, suffix: seq<byte>, cmd: nat) {
    && j <= GroupEnd(j, |ts|) <= |ts|
    && suffix == Body(ts[j..GroupEnd(j, |ts|)]) + Serialize(ts[GroupEnd(j, |ts|)..])
    && cmd == Flags(ts[j..GroupEnd(j, |ts|)])
  }

  /** Where groups end, seen from token j - 1: the same place as from j unless j - 1
      starts a group, and then 8 tokens on, or at the end. */
  lemma GroupEndStep(j: nat, n: nat)
    requires 1 <= j <= n
    ensures j <= GroupEnd(j, n) <= n && GroupEnd(j, n) - j < 8
    ensures (j - 1) % 8 != 0 ==> GroupEnd(j - 1, n) == GroupEnd(j, n)
    ensures (j - 1) % 8 == 0 ==> GroupEnd(j - 1, n) == j - 1 && GroupEnd(j, n) == Min(j - 1 + 8, n)
  {
  }

  /** Putting one more token in front of a run puts its bytes in front and its flag in the
      lowest bit. */
  lemma ConsToken(ts: seq<Token>, j: nat, g: nat)
    requires 1 <= j <= g <= |ts|
    ensures Body(ts[j - 1..g]) == TokenBytes(ts[j - 1]) + Body(ts[j..g])
    ensures Flags(ts[j - 1..g]) == 2 * Flags(ts[j..g]) + (if ts[j - 1].BackRef? then 1 else 0)
  {
    assert ts[j - 1..g][0] == ts[j - 1] && ts[j - 1..g][1..] == ts[j..g];
  }

  /** The stream from a token that starts a group is that group's command byte and tokens,
      then the rest. */
  lemma GroupAt(ts: seq<Token>, i: nat)
    requires i < |ts|
    ensures Flags(ts[i..Min(i + 8, |ts|)]) < 256
    ensures Serialize(ts[i..]) == [Flags(ts[i..Min(i + 8, |ts|)])] + Body(ts[i..Min(i + 8, |ts|)]) + Serialize(ts[Min(i + 8, |ts|)..])
  {
    var s := ts[i..];
    var gl := GroupLen(s);
    var g := Min(i + 8, |ts|);
    assert i + gl == g;
    assert s[..gl] == ts[i..g];
    assert s[gl..] == ts[g..];
    FlagsFitByte(s[..gl]);
  }

  /** The flags of the unfinished group leave room for one more flag bit in a byte. */
  lemma ProgressRoom(ts: seq<Token>, j: nat, suffix: seq<byte>, cmd: nat)
    requires 1 <= j <= |ts| && Progress(ts, j, suffix, cmd)
    ensures cmd * 2 + 1 < 256
  {
    var g := GroupEnd(j, |ts|);
    GroupEndStep(j, |ts|);
    Pow2Grows(g - j, 7);
  }

  /** Handling token j - 1 inside a group shifts its flag into cmd and puts its bytes in
      front. */
  lemma ProgressInGroup(ts: seq<Token>, j: nat, suffix: seq<byte>, cmd: nat)
    requires 1 <= j <= |ts| && Progress(ts, j, suffix, cmd) && (j - 1) % 8 != 0
    ensures Progress(ts, j - 1, TokenBytes(ts[j - 1]) + suffix, cmd * 2 + (if ts[j - 1].BackRef? then 1 else 0))
  {
    var n := |ts|;
    var g := GroupEnd(j, n);
    GroupEndStep(j, n);
    ConsToken(ts, j, g);
    var tb, body, rest := TokenBytes(ts[j - 1]), Body(ts[j..g]), Serialize(ts[g..]);
    assert suffix == body + rest;
    assert tb + suffix == (tb + body) + rest;
  }

  /** The stream from token j - 1, when that token starts a group ending at g: the
      group's command byte, then token j - 1's bytes, then the rest of the group and the
      groups after it. */
  lemma ConsGroup(ts: seq<Token>, j: nat, g: nat)
    requires 1 <= j <= g <= |ts| && g == Min(j - 1 + 8, |ts|)
    ensures var c := 2 * Flags(ts[j..g]) + (if ts[j - 1].BackRef? then 1 else 0);
      c < 256 && Serialize(ts[j - 1..]) == [c as byte] + (TokenBytes(ts[j - 1]) + (Body(ts[j..g]) + Serialize(ts[g..])))
  {
    ConsToken(ts, j, g);
    GroupAt(ts, j - 1);
    var tb, body, rest := TokenBytes(ts[j - 1]), Body(ts[j..g]), Serialize(ts[g..]);
    Regroup([Flags(ts[j - 1..g]) as byte], tb, body, rest);
  }

  /** Concatenation regrouped to the right. */
  lemma Regroup(a: seq<byte>, b: seq<byte>, c: seq<byte>, d: seq<byte>)
    ensures a + (b + c) + d == a + (b + (c + d))
  {
    assert (b + c) + d == b + (c + d);
  }

  /** Handling token j - 1 when it starts a group puts its bytes in front, then the group's
      command byte with its flag in bit 0; cmd restarts. */
  lemma ProgressGroupStart(ts: seq<Token>, j: nat, suffix: seq<byte>, cmd: nat)
    requires 1 <= j <= |ts| && Progress(ts, j, suffix, cmd) && (j - 1) % 8 == 0
    ensures var c := cmd * 2 + (if ts[j - 1].BackRef? then 1 else 0);
      c < 256 && Progress(ts, j - 1, [c as byte] + (TokenBytes(ts[j - 1]) + suffix), 0)
  {
    var n := |ts|;
    var g := GroupEnd(j, n);
    GroupEndStep(j, n);
    ConsGroup(ts, j, g);
    var empty := ts[j - 1..j - 1];
    assert empty == [];
    assert Body(empty) == [] && Flags(empty) == 0;
  }

  /** The bytes of the tokens before j are those before j - 1 and those of token j - 1. */
  lemma BodyPrefixStep(ts: seq<Token>, j: nat)
    requires 1 <= j <= |ts|
    ensures |Body(ts[..j])| == |Body(ts[..j - 1])| + |TokenBytes(ts[j - 1])|
  {
    assert ts[..j] == ts[..j - 1] + [ts[j - 1]];
    BodyAppend(ts[..j - 1], [ts[j - 1]]);
  }

  /** Walking back over the last token of a prefix reaches the prefix that token extends. */
  lemma TraceStep(data: seq<byte>, best: seq<Backref>, len: nat, ts: seq<Token>, j: nat)
    requires Consistent(data, best) && 1 <= len < |best| && j <= |ts| && Trace(data, best, len) == ts[..j]
    ensures Span(LastToken(data, best, len)) <= len && 1 <= j
    ensures ts[j - 1] == LastToken(data, best, len)
    ensures Trace(data, best, len - Span(LastToken(data, best, len))) == ts[..j - 1]
    ensures best[len - Span(LastToken(data, best, len))].cost + Bits(LastToken(data, best, len)) == best[len].cost
  {
    assert EntryOk(data, best, len);
    var t := LastToken(data, best, len);
    var a := Trace(data, best, len - Span(t));
    assert ts[..j] == a + [t];
    assert ts[..j][..j - 1] == ts[..j - 1];
  }

  /** One byte written in front of the bytes from at on. */
  method Prepend(buf: array<byte>, at: nat, x: byte)
    requires 1 <= at <= buf.Length
    modifies buf
    ensures buf[at - 1..] == [x] + old(buf[at..])
  {
    buf[at - 1] := x;
    assert buf[at - 1..] == [x] + buf[at..];
  }

  /** Where reconstruct stands in the table after the tokens from j on: the entry len it
      has walked back to ends the first j tokens of the walk, and cost is that entry's cost. */
  ghost predicate WalkTable(data: seq<byte>, best: seq<Backref>, ts: seq<Token>, len: nat, j: nat, cost: nat)
    requires Consistent(data, best)
  {
    len <= |data| && j <= |ts| && Trace(data, best, len) == ts[..j] && cost == best[len].cost
  }

  /** What reconstruct has written after the tokens from j on: cost is the bit cost of the
      first j tokens, at is where their bytes and command bytes go, and suffix, what is
      written from at on, is as Progress describes. */
  ghost predicate WalkBytes(ts: seq<Token>, j: nat, cost: nat, at: nat, suffix: seq<byte>, cmd: nat) {
    && j <= |ts| && cost == 8 * |Body(ts[..j])| + j && at == |Body(ts[..j])| + (j + 7) / 8
    && Progress(ts, j, suffix, cmd)
  }

  /** Walking back over one table entry: it ends with token j - 1 of the walk, and the
      entry it extends ends the first j - 1 tokens, at that token's bits less. */
  lemma WalkTableStep(data: seq<byte>, best: seq<Backref>, ts: seq<Token>, len: nat, j: nat, cost: nat)
    requires Consistent(data, best) && WalkTable(data, best, ts, len, j, cost) && len > 0
    ensures var t := LastToken(data, best, len);
      && 1 <= j && ts[j - 1] == t && Span(t) <= len && Bits(t) <= cost
      && WalkTable(data, best, ts, len - Span(t), j - 1, cost - Bits(t))
  {
    TraceStep(data, best, len, ts, j);
  }

  /** The byte arithmetic of one step: taking off a token of tb bytes leaves a cost that is a
      multiple of 8 exactly when the token started a group, and the group's command byte
      then takes one more byte. */
  lemma WalkArith(body: nat, j: nat, tb: nat)
    requires 1 <= j && tb <= body
    ensures (8 * (body - tb) + (j - 1)) % 8 == 0 <==> (j - 1) % 8 == 0
    ensures body + (j + 7) / 8 - tb - (if (j - 1) % 8 == 0 then 1 else 0) == (body - tb) + (j - 1 + 7) / 8
  {
    var q, r := (j - 1) / 8, (j - 1) % 8;
    assert j - 1 == 8 * q + r;
    assert 8 * (body - tb) + (j - 1) == 8 * (body - tb + q) + r;
    if r == 0 {
      assert j + 7 == 8 * (q + 1);
      assert j - 1 + 7 == 8 * q + 7;
    } else {
      assert j + 7 == 8 * (q + 1) + r;
      assert j - 1 + 7 == 8 * (q + 1) + (r - 1);
    }
  }

  /** The bytes before token j less token j - 1's: its bits come off the cost, its bytes off
      the write position, with one more byte when it starts a group, which happens exactly
      when the cost left is a multiple of 8. */
  lemma WalkBytesArith(ts: seq<Token>, j: nat, cost: nat, at: nat, suffix: seq<byte>, cmd: nat)
    requires WalkBytes(ts, j, cost, at, suffix, cmd) && 1 <= j
    ensures var t := ts[j - 1];
      var tb := |TokenBytes(t)|;
      var start := (j - 1) % 8 == 0;
      && Bits(t) <= cost && tb + (if start then 1 else 0) <= at
      && cost - Bits(t) == 8 * |Body(ts[..j - 1])| + (j - 1)
      && ((cost - Bits(t)) % 8 == 0 <==> start)
      && at - tb - (if start then 1 else 0) == |Body(ts[..j - 1])| + (j - 1 + 7) / 8
  {
    BodyPrefixStep(ts, j);
    var body := |Body(ts[..j])|;
    var tb := |TokenBytes(ts[j - 1])|;
    WalkArith(body, j, tb);
  }

  /** A step inside a group keeps WalkBytes: token j - 1's bytes go in front and its flag
      into cmd. */
  lemma WalkBytesInGroup(ts: seq<Token>, j: nat, cost: nat, at: nat, suffix: seq<byte>, cmd: nat)
    requires WalkBytes(ts, j, cost, at, suffix, cmd) && 1 <= j && (j - 1) % 8 != 0
    ensures var t := ts[j - 1];
      && Bits(t) <= cost && |TokenBytes(t)| <= at
      && WalkBytes(ts, j - 1, cost - Bits(t), at - |TokenBytes(t)|, TokenBytes(t) + suffix,
                   cmd * 2 + (if t.BackRef? then 1 else 0))
  {
    WalkBytesArith(ts, j, cost, at, suffix, cmd);
    ProgressInGroup(ts, j, suffix, cmd);
  }

  /** A step onto the first token of a group keeps WalkBytes: token j - 1's bytes go in
      front, then the group's command byte, and cmd restarts. */
  lemma WalkBytesGroupStart(ts: seq<Token>, j: nat, cost: nat, at: nat, suffix: seq<byte>, cmd: nat)
    requires WalkBytes(ts, j, cost, at, suffix, cmd) && 1 <= j && (j - 1) % 8 == 0
    ensures var t := ts[j - 1];
      var c := cmd * 2 + (if t.BackRef? then 1 else 0);
      && Bits(t) <= cost && |TokenBytes(t)| + 1 <= at && c < 256
      && WalkBytes(ts, j - 1, cost - Bits(t), at - |TokenBytes(t)| - 1, [c as byte] + (TokenBytes(t) + suffix), 0)
  {
    WalkBytesArith(ts, j, cost, at, suffix, cmd);
    ProgressGroupStart(ts, j, suffix, cmd);
  }

  /** The room one step of reconstruct needs: token j - 1 fits in what is left of the cost
      and of the buffer, with one more byte when a command byte follows, and cmd has a
      free bit. */
  lemma WalkBytesRoom(ts: seq<Token>, j: nat, cost: nat, at: nat, suffix: seq<byte>, cmd: nat)
    requires WalkBytes(ts, j, cost, at, suffix, cmd) && 1 <= j
    ensures var t := ts[j - 1];
      && Bits(t) <= cost && |TokenBytes(t)| <= at && cmd * 2 + 1 < 256
      && ((cost - Bits(t)) % 8 == 0 ==> |TokenBytes(t)| + 1 <= at)
  {
    WalkBytesArith(ts, j, cost, at, suffix, cmd);
    ProgressRoom(ts, j, suffix, cmd);
  }

  /** One step of reconstruct on the bytes: token t's bytes go in front of what is written
      and its flag into cmd; when the cost left is a multiple of 8, the command byte goes in
      front as well and cmd restarts. */
  predicate TokenStepped(suffix: seq<byte>, suffix': seq<byte>, at: nat, cost: nat, cmd: nat,
                         t: Token, at': nat, cost': nat, cmd': nat)
  {
    var c := cmd * 2 + (if t.BackRef? then 1 else 0);
    var s := TokenBytes(t) + suffix;
    var a := at - |TokenBytes(t)|;
    && cost' == cost - Bits(t)
    && if cost' % 8 == 0 then a >= 1 && c < 256 && at' == a - 1 && suffix' == [c as byte] + s && cmd' == 0
       else at' == a && suffix' == s && cmd' == c
  }

  /** The bytes after one step of reconstruct are again a WalkBytes state, one token
      further back. */
  lemma WalkBytesNext(ts: seq<Token>, j: nat, cost: nat, at: nat, suffix: seq<byte>, cmd: nat,
                      cost': nat, at': nat, suffix': seq<byte>, cmd': nat)
    requires WalkBytes(ts, j, cost, at, suffix, cmd) && 1 <= j
    requires TokenStepped(suffix, suffix', at, cost, cmd, ts[j - 1], at', cost', cmd')
    ensures WalkBytes(ts, j - 1, cost', at', suffix', cmd')
  {
    WalkBytesArith(ts, j, cost, at, suffix, cmd);
    if (j - 1) % 8 == 0 {
      WalkBytesGroupStart(ts, j, cost, at, suffix, cmd);
    } else {
      WalkBytesInGroup(ts, j, cost, at, suffix, cmd);
    }
  }

  /** The writes of one step of reconstruct for the token t of table entry e, whose
      literal, if it is one, is lit. */
  method PutToken(buf: array<byte>, at: nat, cost: nat, cmd: nat, e: Backref, lit: byte, ghost t: Token)
    returns (at': nat, cost': nat, cmd': nat)
    requires t == if e.mlen == 0 then Literal(lit) else BackRef(e.moff, e.mlen)
    requires at <= buf.Length && cmd * 2 + 1 < 256 && Bits(t) <= cost && |TokenBytes(t)| <= at
    requires (cost - Bits(t)) % 8 == 0 ==> |TokenBytes(t)| + 1 <= at
    modifies buf
    ensures at' <= at && TokenStepped(old(buf[at..]), buf[at'..], at, cost, cmd, t, at', cost', cmd')
  {
    ghost var s := TokenBytes(t) + buf[at..];
    at', cmd' := at, cmd * 2;
    if e.mlen == 0 {
      cost' := cost - 9;
      Prepend(buf, at', lit);
      at' := at' - 1;
    } else {
      cmd' := cmd' + 1;  // the shift cleared bit 0, so setting it adds one
      cost' := cost - 17;
      Prepend(buf, at', e.mlen);
      at' := at' - 1;
      Prepend(buf, at', e.moff);
      at' := at' - 1;
      assert buf[at'..] == [e.moff] + ([e.mlen] + old(buf[at..]));
    }
    assert buf[at'..] == s && at' == at - |TokenBytes(t)| && cost' == cost - Bits(t);
    if cost' % 8 == 0 {
      Prepend(buf, at', cmd' as byte);
      at' := at' - 1;
      cmd' := 0;
    }
  }


  /** Reconstruct starts at the last entry with nothing written and the whole buffer left. */
  lemma WalkStart(data: seq<byte>, best: seq<Backref>)
    requires Consistent(data, best)
    ensures var ts := Trace(data, best, |data|);
      var cost := best[|data|].cost;
      WalkTable(data, best, ts, |data|, |ts|, cost) && WalkBytes(ts, |ts|, cost, (cost + 7) / 8, [], 0)
  {
    var ts := Trace(data, best, |data|);
    TraceCost(data, best, |data|);
    CostIsBytesAndFlags(ts);
    assert ts[..|ts|] == ts;
    var empty := ts[|ts|..];
    assert empty == [];
    assert Body(empty) == [] && Serialize(empty) == [] && Flags(empty) == 0;
    var body := |Body(ts)|;
    assert (8 * body + |ts| + 7) / 8 == body + (|ts| + 7) / 8;
  }

  /** Once the walk is back at entry 0 every token is written, the write pointer is at the
      start of the buffer, and what is written is the whole serialised stream. */
  lemma WalkDone(data: seq<byte>, best: seq<Backref>, ts: seq<Token>, j: nat, cost: nat,
                 at: nat, suffix: seq<byte>, cmd: nat)
    requires Consistent(data, best)
    requires WalkTable(data, best, ts, 0, j, cost) && WalkBytes(ts, j, cost, at, suffix, cmd)
    ensures at == 0 && suffix == Serialize(ts)
  {
    assert j == 0;
    var empty := ts[0..0];
    assert empty == [];
    assert Body(empty) == [] && ts[0..] == ts;
  }

  /** One pass of reconstruct's loop: the table entry len is written in front of what is
      written from at on, and the walk moves one token back. */
  method WriteToken(data: seq<byte>, best: array<Backref>, buf: array<byte>, len: nat, cost: nat,
                    at: nat, cmd: nat, ghost ts: seq<Token>, ghost j: nat, ghost suffix: seq<byte>)
    returns (len': nat, cost': nat, at': nat, cmd': nat, ghost suffix': seq<byte>)
    requires Consistent(data, best[..]) && len > 0 && at <= buf.Length && buf[at..] == suffix
    requires WalkTable(data, best[..], ts, len, j, cost) && WalkBytes(ts, j, cost, at, suffix, cmd)
    modifies buf
    ensures len' < len && at' <= at && buf[at'..] == suffix' && j >= 1
    ensures WalkTable(data, best[..], ts, len', j - 1, cost') && WalkBytes(ts, j - 1, cost', at', suffix', cmd')
  {
    ghost var table := best[..];
    WalkTableStep(data, table, ts, len, j, cost);
    ghost var t := ts[j - 1];
    WalkBytesRoom(ts, j, cost, at, suffix, cmd);
    var e := best[len];
    assert Span(t) == if e.mlen == 0 then 1 else e.mlen as int + 1;
    at', cost', cmd' := PutToken(buf, at, cost, cmd, e, data[len - 1], t);
    len' := len - (if e.mlen == 0 then 1 else e.mlen as int + 1);
    assert len' == len - Span(t) && cost' == cost - Bits(t);
    suffix' := buf[at'..];
    WalkBytesNext(ts, j, cost, at, suffix, cmd, cost', at', suffix', cmd');
  }

  /** reconstruct: walks the table back from its last entry and fills buf from the end,
      writing each token's bytes (a literal's byte, or moff then mlen) and shifting its flag
      into cmd, and writing cmd in front of each group of 8 tokens once the cost left over
      is a multiple of 8. The buffer it fills is the serialised token stream of the walk,
      and the running cost ends at 0 exactly at the start of the buffer. */
  method Reconstruct(data: seq<byte>, best: array<Backref>) returns (buf: array<byte>)
    requires Consistent(data, best[..])
    ensures buf.Length == (best[|data|].cost + 7) / 8
    ensures buf[..] == Serialize(Trace(data, best[..], |data|))
  {
    ghost var ts := Trace(data, best[..], |data|);
    var len: nat := |data|;
    var cost: nat := best[len].cost;
    var bytes := (cost + 7) / 8;
    buf := new byte[bytes];
    var at: nat := bytes;
    var cmd: nat := 0;
    ghost var j: nat := |ts|;
    ghost var suffix: seq<byte> := [];
    WalkStart(data, best[..]);
    while len > 0
      invariant buf.Length == bytes && at <= bytes && buf[at..] == suffix
      invariant WalkTable(data, best[..], ts, len, j, cost) && WalkBytes(ts, j, cost, at, suffix, cmd)
      decreases len
    {
      len, cost, at, cmd, suffix := WriteToken(data, best, buf, len, cost, at, cmd, ts, j, suffix);
      j := j - 1;
    }
    WalkDone(data, best[..], ts, j, cost, at, suffix, cmd);
    assert buf[..] == buf[at..];
  }
}
