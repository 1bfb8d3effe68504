/** What an update leaves in the image, byte by byte and as the table walk reads it back;
    the two defects of update's slot and padding rules, and the corrected rules. */
module UpdateProofs {
  import opened Wrappers
  import opened Bytes
  import opened Sections
  import opened BootImage

  // ---------------------------------------------------------------------------------------
  // Where each byte of a rewritten image comes from

  /** b' agrees with b below index upTo. */
  predicate KeptBelow(b: seq<byte>, b': seq<byte>, upTo: int) {
    |b'| == |b| && forall k :: 0 <= k < upTo && k < |b| ==> b'[k] == b[k]
  }

  /** b' agrees with b from index from on. */
  predicate KeptFrom(b: seq<byte>, b': seq<byte>, from: int) {
    |b'| == |b| && forall k :: from <= k < |b| && 0 <= k ==> b'[k] == b[k]
  }

  /** b' holds 0xFF at every index of [lo, hi). */
  predicate Erased(b': seq<byte>, lo: int, hi: int) {
    forall k :: lo <= k < hi && 0 <= k < |b'| ==> b'[k] == 0xFF
  }

  /** b' is b with the section header at hdr given length field n and payload src: the
      magic, name and extra header bytes are kept. */
  predicate HeaderWritten(b: seq<byte>, b': seq<byte>, hdr: nat, n: nat, src: seq<byte>)
    requires n < U32Limit
  {
    && PayloadStart(hdr) + |src| <= |b| && KeptBelow(b, b', hdr + 4)
    && (forall k :: hdr + 4 <= k < hdr + 8 ==> b'[k] == BE32(n)[k - hdr - 4])
    && (forall k :: hdr + 8 <= k < PayloadStart(hdr) ==> b'[k] == b[k])
    && (forall k :: PayloadStart(hdr) <= k < PayloadStart(hdr) + |src| ==> b'[k] == src[k - PayloadStart(hdr)])
  }

  /** b3 is b with the section header at hdr given the length of payload src, src after
      the header, 0xFF up to the next 8-byte boundary, and every later byte kept. */
  predicate PayloadShape(b: seq<byte>, b3: seq<byte>, hdr: nat, src: seq<byte>)
    requires |src| + FilenameLen + 4 < U32Limit
  {
    var dataEnd := PayloadStart(hdr) + |src|;
    && HeaderWritten(b, b3, hdr, |src| + FilenameLen + 4, src)
    && Erased(b3, dataEnd, AlignUp8(dataEnd))
    && KeptFrom(b, b3, AlignUp8(dataEnd))
  }

  /** The payload writes: the length field holds the new length, the payload follows the
      24 header bytes, 0xFF runs to the next 8-byte boundary, and nothing else changes. */
  lemma PayloadWrittenBytes(b: seq<byte>, hdr: nat, src: seq<byte>)
    requires |b| < U32Limit && PayloadStart(hdr) + |src| + 8 <= |b|
    ensures PayloadShape(b, PayloadWritten(b, hdr, src), hdr, src)
  {
    var dataEnd := PayloadStart(hdr) + |src|;
    var field := BE32(|src| + FilenameLen + 4);
    var fill := Ones(AlignUp8(dataEnd) - dataEnd);
    var b1 := Overwrite(b, hdr + 4, field);
    var b2 := Overwrite(b1, PayloadStart(hdr), src);
    OverwriteSpec(b, hdr + 4, field);
    OverwriteSpec(b1, PayloadStart(hdr), src);
    OverwriteSpec(b2, dataEnd, fill);
  }

  /** b' agrees with b outside [padStart, nextOffset). */
  predicate GapFrame(b: seq<byte>, b': seq<byte>, padStart: int, nextOffset: int) {
    KeptBelow(b, b', padStart) && KeptFrom(b, b', nextOffset)
  }

  /** The gap writes change nothing outside [padStart, nextOffset). */
  lemma GapFilledFrame(b: seq<byte>, padStart: nat, nextOffset: int, isLast: bool, minPadGap: nat)
    requires |b| < U32Limit && padStart <= nextOffset <= |b| && minPadGap >= 8
    ensures GapFrame(b, GapFilled(b, padStart, nextOffset, isLast, minPadGap), padStart, nextOffset)
  {
    var gap := nextOffset - padStart;
    if gap >= minPadGap && !isLast {
      OverwriteSpec(b, padStart, BE32(PadMagic) + BE32(gap - 8) + Ones(gap - 8));
    } else {
      OverwriteSpec(b, padStart, Ones(gap));
    }
  }

  /** Inside [padStart, nextOffset) the gap writes leave a pad header with 0xFF filler when
      the gap is wide enough and the slot is not the last, and 0xFF alone otherwise. */
  lemma GapFilledContent(b: seq<byte>, padStart: nat, nextOffset: int, isLast: bool, minPadGap: nat)
    requires |b| < U32Limit && padStart <= nextOffset <= |b| && minPadGap >= 8
    ensures var r := GapFilled(b, padStart, nextOffset, isLast, minPadGap);
      var gap := nextOffset - padStart;
      && (gap >= minPadGap && !isLast ==>
            r[padStart .. padStart + 4] == BE32(PadMagic)
            && r[padStart + 4 .. padStart + 8] == BE32(gap - 8)
            && Erased(r, padStart + 8, nextOffset))
      && (!(gap >= minPadGap && !isLast) ==> Erased(r, padStart, nextOffset))
  {
    var gap := nextOffset - padStart;
    if gap >= minPadGap && !isLast {
      var w := BE32(PadMagic) + BE32(gap - 8) + Ones(gap - 8);
      OverwriteSpec(b, padStart, w);
      var r := Overwrite(b, padStart, w);
      assert r[padStart .. padStart + 4] == w[..4];
      assert r[padStart + 4 .. padStart + 8] == w[4..8];
    } else {
      OverwriteSpec(b, padStart, Ones(gap));
    }
  }

  // ---------------------------------------------------------------------------------------
  // The rewritten section as the table walk reads it back

  /** Where the payload of an update ends and the gap starts. */
  function GapStart(hdr: nat, srcLen: nat): nat {
    AlignUp8(PayloadStart(hdr) + srcLen)
  }

  /** An aligned end at or past x is at or past x's 8-byte boundary. */
  lemma AlignUpBelow(x: nat, n: nat)
    requires x <= n && n % 8 == 0
    ensures AlignUp8(x) <= n
  {
  }

  /** The gap of a slot starts aligned, within the slot. */
  lemma SlotGap(size: nat, loc: Location, srcLen: nat)
    requires SlotHolds(size, loc, srcLen)
    ensures GapStart(loc.offset, srcLen) % 8 == 0 && GapStart(loc.offset, srcLen) <= loc.nextOffset
  {
    AlignUpBelow(PayloadStart(loc.offset) + srcLen, loc.nextOffset);
  }

  /** The update's preconditions on the slot: every write in the image, the slot aligned,
      and the payload inside the slot. */
  predicate SlotHolds(size: nat, loc: Location, srcLen: nat) {
    && size % 8 == 0 && WritesFit(size, loc, srcLen)
    && loc.offset % 8 == 0 && loc.nextOffset % 8 == 0
    && PayloadStart(loc.offset) + srcLen <= loc.nextOffset
  }

  /** The header and payload facts of a first write, and the bytes it kept from padStart
      on, survive a second write that changes only [padStart, nextOffset). */
  lemma FrameCompose(b: seq<byte>, b3: seq<byte>, b': seq<byte>, hdr: nat, src: seq<byte>, nextOffset: int)
    requires |src| + FilenameLen + 4 < U32Limit && PayloadShape(b, b3, hdr, src)
    requires GapFrame(b3, b', GapStart(hdr, |src|), nextOffset) && GapStart(hdr, |src|) <= nextOffset
    ensures HeaderWritten(b, b', hdr, |src| + FilenameLen + 4, src) && KeptFrom(b, b', nextOffset)
  {
  }

  /** The rewritten image: the slot's header and payload as HeaderWritten says, and every
      byte from the next section on as it was. */
  lemma RewrittenBytes(b: seq<byte>, loc: Location, src: seq<byte>, minPadGap: nat)
    requires SlotHolds(|b|, loc, |src|) && minPadGap >= 8
    ensures HeaderWritten(b, Rewritten(b, loc, src, minPadGap), loc.offset, |src| + FilenameLen + 4, src)
    ensures KeptFrom(b, Rewritten(b, loc, src, minPadGap), loc.nextOffset)
  {
    var hdr := loc.offset as nat;
    var padStart := GapStart(hdr, |src|);
    SlotGap(|b|, loc, |src|);
    var b3 := PayloadWritten(b, hdr, src);
    var b' := Rewritten(b, loc, src, minPadGap);
    assert b' == GapFilled(b3, padStart, loc.nextOffset, loc.isLast, minPadGap);
    PayloadWrittenBytes(b, hdr, src);
    GapFilledFrame(b3, padStart, loc.nextOffset, loc.isLast, minPadGap);
    FrameCompose(b, b3, b', hdr, src, loc.nextOffset);
  }

  /** The bytes an update writes from the payload start to nextOffset: the payload, 0xFF up
      to the next 8-byte boundary, then the gap as GapFilled lays it out. */
  function UpdateRun(size: nat, loc: Location, src: seq<byte>, minPadGap: nat): (r: seq<byte>)
    requires SlotHolds(size, loc, |src|) && minPadGap >= 8
    ensures PayloadStart(loc.offset) + |r| == loc.nextOffset
  {
    SlotGap(size, loc, |src|);
    var dataEnd := PayloadStart(loc.offset) + |src|;
    src + Ones(GapStart(loc.offset, |src|) - dataEnd)
      + GapBytes(loc.nextOffset - GapStart(loc.offset, |src|), loc.isLast, minPadGap)
  }

  /** Rewritten is the payload writes followed by one write of the gap's bytes. */
  lemma RewrittenIs(b: seq<byte>, loc: Location, src: seq<byte>, minPadGap: nat)
    requires SlotHolds(|b|, loc, |src|) && minPadGap >= 8
    ensures GapStart(loc.offset, |src|) <= loc.nextOffset
    ensures Rewritten(b, loc, src, minPadGap)
         == Overwrite(PayloadWritten(b, loc.offset, src), GapStart(loc.offset, |src|),
                      GapBytes(loc.nextOffset - GapStart(loc.offset, |src|), loc.isLast, minPadGap))
  {
    SlotGap(|b|, loc, |src|);
  }

  /** UpdateRun is the payload, the padding to the boundary and the gap's bytes. */
  lemma UpdateRunIs(size: nat, loc: Location, src: seq<byte>, minPadGap: nat)
    requires SlotHolds(size, loc, |src|) && minPadGap >= 8
    ensures GapStart(loc.offset, |src|) <= loc.nextOffset
    ensures UpdateRun(size, loc, src, minPadGap)
         == src + Ones(GapStart(loc.offset, |src|) - (PayloadStart(loc.offset) + |src|))
            + GapBytes(loc.nextOffset - GapStart(loc.offset, |src|), loc.isLast, minPadGap)
  {
    SlotGap(size, loc, |src|);
  }

  /** Every byte from the payload start to nextOffset of an updated image is the byte of
      UpdateRun at that place, whatever the image held before. */
  lemma RewrittenRun(b: seq<byte>, loc: Location, src: seq<byte>, minPadGap: nat)
    requires SlotHolds(|b|, loc, |src|) && minPadGap >= 8
    ensures forall k :: PayloadStart(loc.offset) <= k < loc.nextOffset ==>
      Rewritten(b, loc, src, minPadGap)[k] == UpdateRun(|b|, loc, src, minPadGap)[k - PayloadStart(loc.offset)]
  {
    var hdr: nat := loc.offset;
    var dataEnd := PayloadStart(hdr) + |src|;
    var padStart := GapStart(hdr, |src|);
    var b3 := PayloadWritten(b, hdr, src);
    var gb := GapBytes(loc.nextOffset - padStart, loc.isLast, minPadGap);
    RewrittenIs(b, loc, src, minPadGap);
    UpdateRunIs(|b|, loc, src, minPadGap);
    PayloadWrittenBytes(b, hdr, src);
    OverwriteSpec(b3, padStart, gb);
    var run := UpdateRun(|b|, loc, src, minPadGap);
    forall k | PayloadStart(hdr) <= k < loc.nextOffset
      ensures Rewritten(b, loc, src, minPadGap)[k] == run[k - PayloadStart(hdr)]
    {
      if k < dataEnd {
        assert run[k - PayloadStart(hdr)] == src[k - PayloadStart(hdr)];
      } else if k < padStart {
        assert run[k - PayloadStart(hdr)] == 0xFF;
      } else {
        assert run[k - PayloadStart(hdr)] == gb[k - padStart];
      }
    }
  }

  /** Updating the same slot with the same payload a second time changes nothing. */
  lemma RewrittenTwice(b: seq<byte>, loc: Location, src: seq<byte>, minPadGap: nat)
    requires SlotHolds(|b|, loc, |src|) && minPadGap >= 8
    ensures Rewritten(Rewritten(b, loc, src, minPadGap), loc, src, minPadGap) == Rewritten(b, loc, src, minPadGap)
  {
    var b1 := Rewritten(b, loc, src, minPadGap);
    var b2 := Rewritten(b1, loc, src, minPadGap);
    RewrittenBytes(b, loc, src, minPadGap);
    RewrittenBytes(b1, loc, src, minPadGap);
    RewrittenRun(b, loc, src, minPadGap);
    RewrittenRun(b1, loc, src, minPadGap);
    assert forall k :: 0 <= k < |b1| ==> b2[k] == b1[k];
  }

  /** An update depends on where the slot is, where the next section starts and whether the
      slot is the final entry, and not on the slot's old length. */
  lemma RewrittenSameSlot(b: seq<byte>, loc: Location, loc': Location, src: seq<byte>, minPadGap: nat)
    requires WritesFit(|b|, loc, |src|) && minPadGap >= 8
    requires loc'.offset == loc.offset && loc'.isLast == loc.isLast && loc'.nextOffset == loc.nextOffset
    ensures WritesFit(|b|, loc', |src|)
    ensures Rewritten(b, loc', src, minPadGap) == Rewritten(b, loc, src, minPadGap)
  {
  }

  /** A header whose magic and name bytes are kept, whose length field holds n and which
      is followed by src reads back as that. */
  lemma HeaderFromBytes(b: seq<byte>, b': seq<byte>, hdr: nat, n: nat, src: seq<byte>)
    requires n < U32Limit && HeaderWritten(b, b', hdr, n, src)
    ensures ReadBE32(b', hdr) == ReadBE32(b, hdr)
    ensures ReadBE32(b', hdr + 4) == n
    ensures RawFilename(b', hdr) == RawFilename(b, hdr)
    ensures b'[PayloadStart(hdr) .. PayloadStart(hdr) + |src|] == src
  {
    ReadFramed(b', b, hdr);
    assert b'[hdr + 4 .. hdr + 8] == BE32(n);
    ReadEncoded(b', hdr + 4, n);
    assert b'[hdr + 8 .. hdr + FileHdrLen] == b[hdr + 8 .. hdr + FileHdrLen];
  }

  /** A rewritten header is the same section with length n. */
  lemma SectionRewritten(b: seq<byte>, b': seq<byte>, s: Section, n: nat, src: seq<byte>)
    requires SectionAt(b, s) && n < U32Limit && HeaderWritten(b, b', s.offset, n, src)
    ensures SectionAt(b', Renewed(s, n))
  {
    HeaderFromBytes(b, b', s.offset, n, src);
  }

  /** The section s with length field n. */
  function Renewed(s: Section, n: nat): Section {
    Section(s.magic, s.offset, n, s.filename)
  }

  /** The pad section update frames the gap [padStart, nextOffset) with. */
  function PadSection(padStart: nat, nextOffset: nat): Section
    requires padStart + 8 <= nextOffset
  {
    Section(PadMagic, padStart, nextOffset - padStart - 8, SyntheticName(padStart))
  }

  /** What fills the gap [padStart, nextOffset) after an update: a pad section header with
      its length and 0xFF filler when framed, else 0xFF throughout. */
  predicate GapLayout(b': seq<byte>, padStart: nat, nextOffset: nat, framed: bool) {
    && (framed ==>
          && padStart + 8 <= nextOffset <= |b'| && nextOffset - padStart - 8 < U32Limit
          && b'[padStart .. padStart + 4] == BE32(PadMagic)
          && b'[padStart + 4 .. padStart + 8] == BE32(nextOffset - padStart - 8))
    && (!framed ==> Erased(b', padStart, nextOffset))
  }

  /** Whether update frames the gap after a rewritten slot as a pad section. */
  function Framed(loc: Location, srcLen: nat, minPadGap: nat): bool
    requires loc.offset >= 0
  {
    loc.nextOffset - GapStart(loc.offset, srcLen) >= minPadGap && !loc.isLast
  }

  /** The gap of a rewritten image is laid out as GapLayout says. */
  lemma RewrittenGap(b: seq<byte>, loc: Location, src: seq<byte>, minPadGap: nat)
    requires SlotHolds(|b|, loc, |src|) && minPadGap >= 8
    ensures GapLayout(Rewritten(b, loc, src, minPadGap), GapStart(loc.offset, |src|), loc.nextOffset,
                      Framed(loc, |src|, minPadGap))
  {
    var hdr: nat := loc.offset;
    var padStart := GapStart(hdr, |src|);
    SlotGap(|b|, loc, |src|);
    var b3 := PayloadWritten(b, hdr, src);
    assert Rewritten(b, loc, src, minPadGap) == GapFilled(b3, padStart, loc.nextOffset, loc.isLast, minPadGap);
    GapFilledContent(b3, padStart, loc.nextOffset, loc.isLast, minPadGap);
  }

  /** What the walk reads from the gap start on: the pad section, then the old image from
      nextOffset on when framed; the old image from nextOffset on when there is no gap; and
      an end marker otherwise. */
  function WalkTail(b: seq<byte>, padStart: nat, nextOffset: nat, framed: bool): Scan
    requires |b| % 8 == 0 && nextOffset % 8 == 0
  {
    if framed && padStart + 8 <= nextOffset then
      var r := ScanFrom(b, nextOffset);
      Scan([PadSection(padStart, nextOffset)] + r.sections, r.error)
    else if padStart == nextOffset then ScanFrom(b, nextOffset)
    else Scan([], None)
  }

  /** A framed gap reads as its pad section, followed by the walk from nextOffset. */
  lemma FramedGapWalk(b': seq<byte>, padStart: nat, nextOffset: nat)
    requires |b'| % 8 == 0 && padStart % 8 == 0 && nextOffset % 8 == 0
    requires GapLayout(b', padStart, nextOffset, true)
    ensures var r := ScanFrom(b', nextOffset);
      ScanFrom(b', padStart) == Scan([PadSection(padStart, nextOffset)] + r.sections, r.error)
  {
    var s := PadSection(padStart, nextOffset);
    ReadEncoded(b', padStart, PadMagic);
    ReadEncoded(b', padStart + 4, s.length);
    MagicFamily();
    assert SectionAt(b', s);
    AlignUpAligned(nextOffset);
    assert NextSection(s.offset, s.length) == nextOffset;
    ScanFromSection(b', s);
  }

  /** An aligned offset is its own 8-byte boundary. */
  lemma AlignUpAligned(x: nat)
    requires x % 8 == 0
    ensures AlignUp8(x) == x
  {
  }

  /** An erased word ends the walk. */
  lemma ErasedGapWalk(b': seq<byte>, padStart: nat, nextOffset: nat)
    requires |b'| % 8 == 0 && padStart % 8 == 0 && padStart + 8 <= nextOffset <= |b'|
    requires Erased(b', padStart, nextOffset)
    ensures ScanFrom(b', padStart) == Scan([], None)
  {
    ReadErased(b', padStart);
  }

  /** The walk from the gap start of an image laid out as GapLayout says, and unchanged from
      nextOffset on. */
  lemma TailWalk(b: seq<byte>, b': seq<byte>, padStart: nat, nextOffset: nat, framed: bool)
    requires |b| % 8 == 0 && padStart % 8 == 0 && nextOffset % 8 == 0
    requires padStart <= nextOffset <= |b|
    requires KeptFrom(b, b', nextOffset) && GapLayout(b', padStart, nextOffset, framed)
    ensures ScanFrom(b', padStart) == WalkTail(b, padStart, nextOffset, framed)
  {
    ScanFromLocal(b, b', nextOffset);
    if framed {
      FramedGapWalk(b', padStart, nextOffset);
    } else if padStart < nextOffset {
      ErasedGapWalk(b', padStart, nextOffset);
    }
  }

  /** The section a rewrite leaves ends where its gap starts. */
  lemma NextAfterRewrite(hdr: nat, srcLen: nat)
    ensures NextSection(hdr, srcLen + FilenameLen + 4) == GapStart(hdr, srcLen)
  {
    assert hdr + 8 + (srcLen + FilenameLen + 4) == PayloadStart(hdr) + srcLen;
  }

  /** The walk from a section whose header was rewritten with length n reads it with that
      length, then the gap, then b from nextOffset on. */
  lemma WalkAfterWrite(b: seq<byte>, b': seq<byte>, s: Section, n: nat, src: seq<byte>,
                       nextOffset: nat, framed: bool)
    requires |b| % 8 == 0 && nextOffset % 8 == 0 && n < U32Limit
    requires SectionAt(b, s) && HeaderWritten(b, b', s.offset, n, src)
    requires NextSection(s.offset, n) <= nextOffset <= |b|
    requires KeptFrom(b, b', nextOffset) && GapLayout(b', NextSection(s.offset, n), nextOffset, framed)
    ensures var tail := WalkTail(b, NextSection(s.offset, n), nextOffset, framed);
      ScanFrom(b', s.offset) == Scan([Renewed(s, n)] + tail.sections, tail.error)
  {
    SectionRewritten(b, b', s, n, src);
    ScanFromSection(b', Renewed(s, n));
    TailWalk(b, b', NextSection(s.offset, n), nextOffset, framed);
  }

  /** b' is what a rewrite of the slot at loc with payload src leaves of b: the header
      and payload, the gap laid out as framed says, and b unchanged from nextOffset on. */
  predicate RewriteShape(b: seq<byte>, b': seq<byte>, loc: Location, src: seq<byte>, framed: bool)
    requires SlotHolds(|b|, loc, |src|)
  {
    && HeaderWritten(b, b', loc.offset, |src| + FilenameLen + 4, src)
    && KeptFrom(b, b', loc.nextOffset)
    && GapLayout(b', GapStart(loc.offset, |src|), loc.nextOffset, framed)
  }

  /** A rewritten image has the shape of a rewrite. */
  lemma RewrittenShape(b: seq<byte>, loc: Location, src: seq<byte>, minPadGap: nat)
    requires SlotHolds(|b|, loc, |src|) && minPadGap >= 8
    ensures RewriteShape(b, Rewritten(b, loc, src, minPadGap), loc, src, Framed(loc, |src|, minPadGap))
  {
    RewrittenBytes(b, loc, src, minPadGap);
    RewrittenGap(b, loc, src, minPadGap);
  }

  /** The walk from the slot of an image with the shape of a rewrite. */
  lemma ShapeWalk(b: seq<byte>, b': seq<byte>, loc: Location, src: seq<byte>, framed: bool, s: Section)
    requires SlotHolds(|b|, loc, |src|) && RewriteShape(b, b', loc, src, framed)
    requires SectionAt(b, s) && s.offset == loc.offset
    ensures var tail := WalkTail(b, GapStart(loc.offset, |src|), loc.nextOffset, framed);
      ScanFrom(b', s.offset) == Scan([Renewed(s, |src| + FilenameLen + 4)] + tail.sections, tail.error)
  {
    SlotGap(|b|, loc, |src|);
    NextAfterRewrite(s.offset, |src|);
    WalkAfterWrite(b, b', s, |src| + FilenameLen + 4, src, loc.nextOffset, framed);
  }

  /** The walk from a rewritten slot reads the slot's section with its new length, then what
      the gap holds, then the old image from nextOffset on. */
  lemma RewrittenWalk(b: seq<byte>, loc: Location, src: seq<byte>, minPadGap: nat, s: Section)
    requires SlotHolds(|b|, loc, |src|) && minPadGap >= 8
    requires SectionAt(b, s) && s.offset == loc.offset
    ensures var tail := WalkTail(b, GapStart(loc.offset, |src|), loc.nextOffset, Framed(loc, |src|, minPadGap));
      ScanFrom(Rewritten(b, loc, src, minPadGap), s.offset)
        == Scan([Renewed(s, |src| + FilenameLen + 4)] + tail.sections, tail.error)
  {
    RewrittenShape(b, loc, src, minPadGap);
    ShapeWalk(b, Rewritten(b, loc, src, minPadGap), loc, src, Framed(loc, |src|, minPadGap), s);
  }

  // ---------------------------------------------------------------------------------------
  // The whole table after a rewrite

  /** Every section of u has its header, and its embedded name when it is a file section,
      below index upTo. */
  predicate ReadsBelow(u: seq<Section>, upTo: int) {
    forall i :: 0 <= i < |u| ==>
      u[i].offset + 8 <= upTo && (u[i].magic == FileMagic ==> u[i].offset + FileHdrLen <= upTo)
  }

  /** A section whose header and name lie in a region two images share is stored in both. */
  lemma SectionKept(b: seq<byte>, b': seq<byte>, s: Section, upTo: int)
    requires SectionAt(b, s) && KeptBelow(b, b', upTo) && s.offset + 8 <= upTo
    requires s.magic == FileMagic ==> s.offset + FileHdrLen <= upTo
    ensures SectionAt(b', s)
  {
    ReadFramed(b, b', s.offset);
    ReadFramed(b, b', s.offset + 4);
    if s.magic == FileMagic {
      assert RawFilename(b', s.offset) == RawFilename(b, s.offset);
    }
  }

  /** A chain read below index upTo is a chain of every image that agrees below upTo. */
  lemma {:induction false} ChainKept(b: seq<byte>, b': seq<byte>, start: nat, u: seq<Section>, upTo: int)
    requires Chain(b, start, u) && KeptBelow(b, b', upTo) && ReadsBelow(u, upTo)
    ensures Chain(b', start, u)
    decreases |u|
  {
    if |u| > 0 {
      SectionKept(b, b', u[0], upTo);
      assert ReadsBelow(u[1..], upTo) by {
        forall i | 0 <= i < |u[1..]| ensures u[1..][i] == u[i + 1] { }
      }
      ChainKept(b, b', NextSection(u[0].offset, u[0].length), u[1..], upTo);
    }
  }

  /** The sections before index j of a chain from 0 lie in whole 8-byte words below its
      offset. */
  lemma ChainBefore(b: seq<byte>, t: seq<Section>, j: nat, i: nat)
    requires Chain(b, 0, t) && i < j < |t|
    ensures t[i].offset + 8 <= t[j].offset
  {
    ChainAscending(b, 0, t, j);
    ChainMember(b, 0, t, i);
    ChainMember(b, 0, t, j);
  }

  /** No file section before the slot reads its name from the slot's length field or later:
      the name of a file section ends within the next section's magic word. */
  predicate NamesClear(t: seq<Section>, hdr: int) {
    forall i :: 0 <= i < |t| && t[i].offset < hdr && t[i].magic == FileMagic ==>
      t[i].offset + FileHdrLen <= hdr + 4
  }

  /** The sections before index j of a parsed table are a chain of every image that keeps
      the bytes below the slot's length field, and that chain ends at the slot. */
  lemma PrefixKept(b: seq<byte>, b': seq<byte>, t: seq<Section>, j: nat)
    requires Chain(b, 0, t) && j < |t| && NamesClear(t, t[j].offset)
    requires KeptBelow(b, b', t[j].offset + 4)
    ensures Chain(b', 0, t[..j]) && ChainEnd(0, t[..j]) == t[j].offset
  {
    ChainPrefix(b, 0, t, j);
    ChainEndPrefix(b, 0, t, j);
    forall i | 0 <= i < j ensures t[i].offset + 8 <= t[j].offset {
      ChainBefore(b, t, j, i);
    }
    ChainKept(b, b', 0, t[..j], t[j].offset + 4);
  }

  /** The table of an image with the shape of a rewrite of section j of a parsed table: the
      sections before it, the section with its new length, then what the gap holds and the
      old walk from nextOffset. */
  lemma ShapeParse(b: seq<byte>, b': seq<byte>, t: seq<Section>, j: nat, loc: Location, src: seq<byte>, framed: bool)
    requires SlotHolds(|b|, loc, |src|) && RewriteShape(b, b', loc, src, framed)
    requires ParseImage(b) == Scan(t, None) && j < |t| && t[j].offset == loc.offset
    requires NamesClear(t, loc.offset)
    ensures var tail := WalkTail(b, GapStart(loc.offset, |src|), loc.nextOffset, framed);
      ParseImage(b') == Scan(t[..j] + [Renewed(t[j], |src| + FilenameLen + 4)] + tail.sections, tail.error)
  {
    ParsedSlot(b, b', t, j);
    ChainThenScan(b', 0, t[..j]);
    ShapeWalk(b, b', loc, src, framed, t[j]);
    var tail := WalkTail(b, GapStart(loc.offset, |src|), loc.nextOffset, framed);
    AppendAssoc(t[..j], [Renewed(t[j], |src| + FilenameLen + 4)], tail.sections);
  }

  /** Section j of a parsed table is stored in the image, and the sections before it are a
      chain ending at it in every image that keeps the bytes below its length field. */
  lemma ParsedSlot(b: seq<byte>, b': seq<byte>, t: seq<Section>, j: nat)
    requires |b| % 8 == 0 && ParseImage(b) == Scan(t, None) && j < |t|
    requires NamesClear(t, t[j].offset) && KeptBelow(b, b', t[j].offset + 4)
    ensures SectionAt(b, t[j]) && Chain(b', 0, t[..j]) && ChainEnd(0, t[..j]) == t[j].offset
  {
    ScanFromChain(b, 0);
    ChainMember(b, 0, t, j);
    PrefixKept(b, b', t, j);
  }

  lemma AppendAssoc<T>(u: seq<T>, v: seq<T>, w: seq<T>)
    ensures u + (v + w) == u + v + w
  {
  }

  /** Where update finds the slot, given that it found one. */
  lemma LocatedSlot(t: seq<Section>, name: seq<byte>, imageSize: nat)
    requires Locate(t, name, imageSize).Ok? && Locate(t, name, imageSize).value.offset >= 0
    ensures var j := IndexOf(t, name, 0);
      j < |t| && t[j].offset == Locate(t, name, imageSize).value.offset
  {
  }

  /** Parsing a rewritten image: every section before the slot as before, the slot's
      section with the length of its new payload, then the pad section or end marker the gap
      holds, then the old table from the next live section on. */
  lemma RewrittenParse(b: seq<byte>, t: seq<Section>, name: seq<byte>, src: seq<byte>, minPadGap: nat)
    requires |b| % 8 == 0 && ParseImage(b) == Scan(t, None) && minPadGap >= 8
    requires Locate(t, name, |b|).Ok? && SlotHolds(|b|, Locate(t, name, |b|).value, |src|)
    requires NamesClear(t, Locate(t, name, |b|).value.offset)
    ensures var loc := Locate(t, name, |b|).value;
      var j := IndexOf(t, name, 0);
      var tail := WalkTail(b, GapStart(loc.offset, |src|), loc.nextOffset, Framed(loc, |src|, minPadGap));
      && j < |t|
      && ParseImage(Rewritten(b, loc, src, minPadGap))
         == Scan(t[..j] + [Renewed(t[j], |src| + FilenameLen + 4)] + tail.sections, tail.error)
  {
    var loc := Locate(t, name, |b|).value;
    LocatedSlot(t, name, |b|);
    RewrittenShape(b, loc, src, minPadGap);
    ShapeParse(b, Rewritten(b, loc, src, minPadGap), t, IndexOf(t, name, 0), loc, src, Framed(loc, |src|, minPadGap));
  }

  /** get_file on a table whose first section named name is at index j, with the header at
      hdr, the length of payload src, and src stored after the header. */
  lemma TableGetFile(t: seq<Section>, b: seq<byte>, name: seq<byte>, j: nat, src: seq<byte>)
    requires j < |t| && t[j].filename == name && t[j].length == |src| + FilenameLen + 4
    requires forall m :: 0 <= m < j ==> t[m].filename != name
    requires PayloadStart(t[j].offset) + |src| <= |b|
    requires b[PayloadStart(t[j].offset) .. PayloadStart(t[j].offset) + |src|] == src
    ensures FileBytes(t, b, name) == Ok(src)
  {
    LocateHit(t, name, |b|, j);
  }

  /** After a rewrite of section j, the first section named name is still at index j. */
  lemma RenewedFirst(t: seq<Section>, name: seq<byte>, n: nat, rest: seq<Section>)
    requires IndexOf(t, name, 0) < |t|
    ensures var j := IndexOf(t, name, 0);
      var t2 := t[..j] + [Renewed(t[j], n)] + rest;
      && j < |t2| && t2[j] == Renewed(t[j], n) && t2[j].filename == name
      && forall m :: 0 <= m < j ==> t2[m].filename != name
  {
    var j := IndexOf(t, name, 0);
    var t2 := t[..j] + [Renewed(t[j], n)] + rest;
    assert forall m :: 0 <= m < j ==> t2[m] == t[m];
  }

  /** get_file after a rewrite, on the table parsed again from the new image, returns the
      payload just written. */
  lemma RewrittenGetFile(b: seq<byte>, t: seq<Section>, name: seq<byte>, src: seq<byte>, minPadGap: nat)
    requires |b| % 8 == 0 && ParseImage(b) == Scan(t, None) && minPadGap >= 8
    requires Locate(t, name, |b|).Ok? && SlotHolds(|b|, Locate(t, name, |b|).value, |src|)
    requires NamesClear(t, Locate(t, name, |b|).value.offset)
    ensures var b' := Rewritten(b, Locate(t, name, |b|).value, src, minPadGap);
      FileBytes(ParseImage(b').sections, b', name) == Ok(src)
  {
    var loc := Locate(t, name, |b|).value;
    var tail := WalkTail(b, GapStart(loc.offset, |src|), loc.nextOffset, Framed(loc, |src|, minPadGap));
    RewrittenParse(b, t, name, src, minPadGap);
    RewrittenShape(b, loc, src, minPadGap);
    LocatedSlot(t, name, |b|);
    ShapeGetFile(b, Rewritten(b, loc, src, minPadGap), t, name, src, tail.sections, tail.error);
  }

  /** get_file on the parse of an image whose table is t with the first section named name
      rewritten to hold src. */
  lemma ShapeGetFile(b: seq<byte>, b': seq<byte>, t: seq<Section>, name: seq<byte>, src: seq<byte>,
                     rest: seq<Section>, error: Option<ParseError>)
    requires |b'| % 8 == 0 && IndexOf(t, name, 0) < |t| && |src| + FilenameLen + 4 < U32Limit
    requires HeaderWritten(b, b', t[IndexOf(t, name, 0)].offset, |src| + FilenameLen + 4, src)
    requires ParseImage(b') == Scan(t[..IndexOf(t, name, 0)] + [Renewed(t[IndexOf(t, name, 0)], |src| + FilenameLen + 4)] + rest, error)
    ensures FileBytes(ParseImage(b').sections, b', name) == Ok(src)
  {
    var j := IndexOf(t, name, 0);
    var n := |src| + FilenameLen + 4;
    HeaderFromBytes(b, b', t[j].offset, n, src);
    RenewedFirst(t, name, n, rest);
    TableGetFile(ParseImage(b').sections, b', name, j, src);
  }
}
