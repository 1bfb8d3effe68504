/** Two defects of update (reversing/extract.py) and the rules that evidently were meant:
    its slot check counts four bytes too few, and an 8-byte gap is erased instead of being
    framed as an empty pad section. */
module UpdateFindings {
  import opened Wrappers
  import opened Bytes
  import opened Sections
  import opened BootImage
  import opened UpdateProofs

  // ---------------------------------------------------------------------------------------
  // The slot check

  /** A table in which an 8-byte payload slot is followed by a section at offset 32. */
  const OverrunName: seq<byte> := [0x61]
  const OverrunTable: seq<Section> :=
    [Section(FileMagic, 0, 24, OverrunName), Section(Magic, 32, 8, SyntheticName(32))]
  const OverrunImageSize: nat := 512 * 1024

  /** As written, the check passes a 12-byte payload for that 8-byte slot, although the
      payload then ends at offset 36, inside the next section's header at 32. */
  lemma GuardAdmitsOverrun()
    ensures UpdateCheck(OverrunTable, OverrunImageSize, OverrunName, 12) == Pass
    ensures var loc := Locate(OverrunTable, OverrunName, OverrunImageSize).value;
      loc.offset == 0 && loc.nextOffset == 32 && PayloadStart(loc.offset) + 12 == 36
  {
    assert IndexOf(OverrunTable, OverrunName, 0) == 0;
    assert NextLiveIndex(OverrunTable, 1) == 1;
  }

  /** Whenever the payload runs four bytes or more past nextOffset, the magic word of the next
      section is overwritten by payload bytes: the walk then reads a payload word as that
      section's magic (0xFF bytes there end the table). */
  lemma OverrunClobbersNext(b: seq<byte>, loc: Location, src: seq<byte>)
    requires WritesFit(|b|, loc, |src|)
    requires PayloadStart(loc.offset) <= loc.nextOffset
    requires loc.nextOffset + 4 <= PayloadStart(loc.offset) + |src|
    ensures ReadBE32(UpdatedImage(b, loc, src), loc.nextOffset)
         == ReadBE32(src, loc.nextOffset - PayloadStart(loc.offset))
  {
    var hdr: nat := loc.offset;
    var next: nat := loc.nextOffset;
    var b3 := PayloadWritten(b, hdr, src);
    var padStart := AlignUp8(PayloadStart(hdr) + |src|);
    assert UpdatedImage(b, loc, src) == Overwrite(b3, padStart, Ones(0));
    OverwriteEmpty(b3, padStart);
    PayloadWrittenBytes(b, hdr, src);
    var i := next - PayloadStart(hdr);
    assert b3[next] == src[i] && b3[next + 1] == src[i + 1];
    assert b3[next + 2] == src[i + 2] && b3[next + 3] == src[i + 3];
  }

  /** The check evidently meant: the payload starts 24 bytes after the header (magic,
      length, 12-byte name, 4 more bytes), so both room tests count FileHdrLen + 4 bytes. */
  function FixedUpdateCheck(t: seq<Section>, imageSize: nat, name: seq<byte>, srcLen: nat): Outcome<UpdateError> {
    match Locate(t, name, imageSize)
    case Err(_) => Fail(NoTable)
    case Ok(loc) =>
      var updateLen := srcLen + FileHdrLen + 4;
      if loc.offset + updateLen > imageSize - EraseAlignSize then Fail(PastImageEnd)
      else if loc.offset < 0 then Fail(NotFound)
      else if loc.offset + updateLen > loc.nextOffset then Fail(Overflow(updateLen, loc.nextOffset - loc.offset))
      else Pass
  }

  /** The corrected check refuses the overrunning update of GuardAdmitsOverrun. */
  lemma FixedRefusesOverrun()
    ensures FixedUpdateCheck(OverrunTable, OverrunImageSize, OverrunName, 12) == Fail(Overflow(36, 32))
  {
    assert IndexOf(OverrunTable, OverrunName, 0) == 0;
    assert NextLiveIndex(OverrunTable, 1) == 1;
  }

  /** The corrected check only refuses more: what it passes, the check as written passes. */
  lemma FixedCheckStricter(t: seq<Section>, imageSize: nat, name: seq<byte>, srcLen: nat)
    requires FixedUpdateCheck(t, imageSize, name, srcLen) == Pass
    ensures UpdateCheck(t, imageSize, name, srcLen) == Pass
  {
  }

  /** Every section of a parsed table lies wholly inside the image, aligned. */
  lemma ParsedInImage(b: seq<byte>, t: seq<Section>)
    requires |b| % 8 == 0 && ParseImage(b) == Scan(t, None)
    ensures forall i :: 0 <= i < |t| ==> SectionInImage(t[i], |b|)
  {
    ScanFromChain(b, 0);
    forall i | 0 <= i < |t| ensures SectionInImage(t[i], |b|) {
      ChainMember(b, 0, t, i);
    }
  }

  /** When the corrected check passes on a parsed table, the payload stays inside its slot
      and every write inside the image. */
  lemma FixedCheckHoldsSlot(b: seq<byte>, t: seq<Section>, name: seq<byte>, srcLen: nat)
    requires ValidImageSize(|b|) && ParseImage(b) == Scan(t, None)
    requires FixedUpdateCheck(t, |b|, name, srcLen) == Pass
    ensures Locate(t, name, |b|).Ok? && SlotHolds(|b|, Locate(t, name, |b|).value, srcLen)
  {
    ValidImageSizeAligned(|b|);
    ParsedInImage(b, t);
    FixedCheckStricter(t, |b|, name, srcLen);
    CheckedWritesFit(t, |b|, name, srcLen);
  }

  // ---------------------------------------------------------------------------------------
  // The 8-byte gap

  /** As written, a gap of exactly 8 bytes after a slot that is not the final entry is
      erased: the walk stops right after the rewritten section, so every section from
      nextOffset on drops out of the table. */
  lemma EightByteGapEndsWalk(b: seq<byte>, loc: Location, src: seq<byte>, s: Section)
    requires SlotHolds(|b|, loc, |src|) && SectionAt(b, s) && s.offset == loc.offset
    requires loc.nextOffset - GapStart(loc.offset, |src|) == 8 && !loc.isLast
    ensures ScanFrom(UpdatedImage(b, loc, src), s.offset) == Scan([Renewed(s, |src| + FilenameLen + 4)], None)
  {
    RewrittenWalk(b, loc, src, SourceMinPadGap, s);
    assert [Renewed(s, |src| + FilenameLen + 4)] + [] == [Renewed(s, |src| + FilenameLen + 4)];
  }

  /** The slot of an as-written update whose payload leaves an 8-byte gap before the next
      live section k: a gap that small always fits the slot. */
  lemma EightByteGapSlot(b: seq<byte>, t: seq<Section>, name: seq<byte>, src: seq<byte>)
    requires ValidImageSize(|b|) && ParseImage(b) == Scan(t, None)
    requires UpdateCheck(t, |b|, name, |src|) == Pass
    requires NextLiveIndex(t, IndexOf(t, name, 0) + 1) < |t|
    requires Locate(t, name, |b|).value.nextOffset - GapStart(Locate(t, name, |b|).value.offset, |src|) == 8
    ensures SlotHolds(|b|, Locate(t, name, |b|).value, |src|)
    ensures var j := IndexOf(t, name, 0);
      var k := NextLiveIndex(t, j + 1);
      && j < k && Locate(t, name, |b|).value == Location(t[j].offset, t[j].length, false, t[k].offset)
  {
    ValidImageSizeAligned(|b|);
    ParsedInImage(b, t);
    CheckedWritesFit(t, |b|, name, |src|);
    LocatedSlot(t, name, |b|);
    LiveSectionFollows(t, name, |b|);
  }

  /** As written, after an update that leaves an 8-byte gap the re-parsed table ends with
      the slot, so a second update takes the slot for the final entry and its gap to run up
      to the last 4096 bytes of the image. */
  lemma EightByteGapReparse(b: seq<byte>, t: seq<Section>, name: seq<byte>, src: seq<byte>)
    requires ValidImageSize(|b|) && ParseImage(b) == Scan(t, None)
    requires UpdateCheck(t, |b|, name, |src|) == Pass
    requires NamesClear(t, Locate(t, name, |b|).value.offset)
    requires NextLiveIndex(t, IndexOf(t, name, 0) + 1) < |t|
    requires Locate(t, name, |b|).value.nextOffset - GapStart(Locate(t, name, |b|).value.offset, |src|) == 8
    ensures SlotHolds(|b|, Locate(t, name, |b|).value, |src|)
    ensures var loc := Locate(t, name, |b|).value;
      var j := IndexOf(t, name, 0);
      var b1 := UpdatedImage(b, loc, src);
      && j < |t|
      && ParseImage(b1) == Scan(t[..j] + [Renewed(t[j], |src| + FilenameLen + 4)], None)
      && Locate(ParseImage(b1).sections, name, |b|)
         == Ok(Location(loc.offset, |src| + FilenameLen + 4, true, |b| - EraseAlignSize))
  {
    var loc := Locate(t, name, |b|).value;
    var j := IndexOf(t, name, 0);
    var s' := Renewed(t[j], |src| + FilenameLen + 4);
    EightByteGapSlot(b, t, name, src);
    ValidImageSizeAligned(|b|);
    RewrittenParse(b, t, name, src, SourceMinPadGap);
    SlotGap(|b|, loc, |src|);
    assert t[..j] + [s'] + [] == t[..j] + [s'];
    RenewedFirst(t, name, |src| + FilenameLen + 4, []);
    LocateHit(t[..j] + [s'], name, |b|, j);
  }

  /** As written, updating the same file twice with a payload that leaves an 8-byte gap
      erases the magic word of the next live section: the first update drops it from the
      table, so the second fills the whole space after the slot with 0xFF. */
  lemma SecondUpdateErasesNext(b: seq<byte>, t: seq<Section>, name: seq<byte>, src: seq<byte>)
    requires ValidImageSize(|b|) && ParseImage(b) == Scan(t, None)
    requires UpdateCheck(t, |b|, name, |src|) == Pass
    requires NamesClear(t, Locate(t, name, |b|).value.offset)
    requires NextLiveIndex(t, IndexOf(t, name, 0) + 1) < |t|
    requires Locate(t, name, |b|).value.nextOffset - GapStart(Locate(t, name, |b|).value.offset, |src|) == 8
    requires Locate(t, name, |b|).value.nextOffset + 4 <= |b| - EraseAlignSize
    ensures SlotHolds(|b|, Locate(t, name, |b|).value, |src|)
    ensures var loc := Locate(t, name, |b|).value;
      var b1 := UpdatedImage(b, loc, src);
      var t1 := ParseImage(b1).sections;
      && MagicMatches(ReadBE32(b1, loc.nextOffset))
      && UpdateCheck(t1, |b1|, name, |src|) == Pass
      && SlotHolds(|b1|, Locate(t1, name, |b1|).value, |src|)
      && ReadBE32(UpdatedImage(b1, Locate(t1, name, |b1|).value, src), loc.nextOffset) == 0xFFFF_FFFF
  {
    var loc := Locate(t, name, |b|).value;
    var j := IndexOf(t, name, 0);
    var k := NextLiveIndex(t, j + 1);
    EightByteGapReparse(b, t, name, src);
    EightByteGapSlot(b, t, name, src);
    NextMagicKept(b, t, k, loc, src);
    var b1 := UpdatedImage(b, loc, src);
    RewrittenBytes(b, loc, src, SourceMinPadGap);
    assert |b1| == |b|;
    var loc1 := Locate(ParseImage(b1).sections, name, |b1|).value;
    assert loc1 == Location(loc.offset, |src| + FilenameLen + 4, true, |b| - EraseAlignSize);
    ValidImageSizeAligned(|b|);
    FinalSlotHolds(|b|, loc, loc1, |src|);
    FinalGapErased(b1, loc1, src, loc.nextOffset);
  }

  /** A slot that holds the payload still holds it when its gap is stretched to the last
      4096 bytes of the image. */
  lemma FinalSlotHolds(size: nat, loc: Location, loc': Location, srcLen: nat)
    requires SlotHolds(size, loc, srcLen) && size % EraseAlignSize == 0
    requires loc'.offset == loc.offset && loc'.nextOffset == size - EraseAlignSize
    requires GapStart(loc.offset, srcLen) <= size - EraseAlignSize
    ensures SlotHolds(size, loc', srcLen)
  {
    SlotGap(size, loc, srcLen);
  }

  /** An update leaves the magic word of the live section at nextOffset in place. */
  lemma NextMagicKept(b: seq<byte>, t: seq<Section>, k: nat, loc: Location, src: seq<byte>)
    requires ValidImageSize(|b|) && ParseImage(b) == Scan(t, None) && k < |t|
    requires SlotHolds(|b|, loc, |src|) && loc.nextOffset == t[k].offset
    ensures loc.nextOffset + 8 <= |UpdatedImage(b, loc, src)|
    ensures MagicMatches(ReadBE32(UpdatedImage(b, loc, src), loc.nextOffset))
  {
    var b1 := UpdatedImage(b, loc, src);
    RewrittenBytes(b, loc, src, SourceMinPadGap);
    ValidImageSizeAligned(|b|);
    ParsedSuffix(b, t, k);
    ScanFromChain(b, t[k].offset);
    ChainMember(b, t[k].offset, t[k..], 0);
    ReadFramed(b1, b, loc.nextOffset);
  }

  /** An update of the final entry leaves every magic word in its gap erased. */
  lemma FinalGapErased(b: seq<byte>, loc: Location, src: seq<byte>, at: nat)
    requires SlotHolds(|b|, loc, |src|) && loc.isLast
    requires GapStart(loc.offset, |src|) <= at && at + 4 <= loc.nextOffset
    ensures ReadBE32(UpdatedImage(b, loc, src), at) == 0xFFFF_FFFF
  {
    RewrittenGap(b, loc, src, SourceMinPadGap);
    RewrittenBytes(b, loc, src, SourceMinPadGap);
    ReadErased(UpdatedImage(b, loc, src), at);
  }

  /** The smallest gap evidently meant to be framed: a pad header alone, of length 0. */
  const FixedMinPadGap: nat := 8

  /** The image the corrected update leaves: an 8-byte gap framed as an empty pad section. */
  function FixedImage(b: seq<byte>, loc: Location, src: seq<byte>): seq<byte>
    requires WritesFit(|b|, loc, |src|)
  {
    Rewritten(b, loc, src, FixedMinPadGap)
  }

  /** The correction changes nothing but the 8-byte gap. */
  lemma FixedDiffersOnlyAtEight(b: seq<byte>, loc: Location, src: seq<byte>)
    requires WritesFit(|b|, loc, |src|)
    requires loc.nextOffset - AlignUp8(PayloadStart(loc.offset) + |src|) != 8
    ensures FixedImage(b, loc, src) == UpdatedImage(b, loc, src)
  {
  }

  /** The walk of a parsed table from its k-th section reads the rest of the table. */
  lemma ParsedSuffix(b: seq<byte>, t: seq<Section>, k: nat)
    requires |b| % 8 == 0 && ParseImage(b) == Scan(t, None) && k < |t|
    ensures t[k].offset % 8 == 0 && ScanFrom(b, t[k].offset) == Scan(t[k..], None)
  {
    ScanFromChain(b, 0);
    ChainPrefix(b, 0, t, k);
    ChainEndPrefix(b, 0, t, k);
    ChainMember(b, 0, t, k);
    ChainThenScan(b, 0, t[..k]);
    var rest := ScanFrom(b, t[k].offset);
    assert t == t[..k] + rest.sections;
    assert rest.sections == t[k..];
  }

  /** The sections the corrected update puts in the gap: none when there is none, else one
      pad section. */
  function GapSections(padStart: nat, nextOffset: nat): seq<Section>
    requires padStart <= nextOffset
  {
    if padStart + 8 <= nextOffset then [PadSection(padStart, nextOffset)] else []
  }

  /** When a live section follows the slot, update's nextOffset is its offset and the slot is
      not the final entry. */
  lemma LiveSectionFollows(t: seq<Section>, name: seq<byte>, imageSize: nat)
    requires IndexOf(t, name, 0) < |t| && NextLiveIndex(t, IndexOf(t, name, 0) + 1) < |t|
    ensures var j := IndexOf(t, name, 0);
      var k := NextLiveIndex(t, j + 1);
      && Locate(t, name, imageSize).Ok? && j < k
      && Locate(t, name, imageSize).value == Location(t[j].offset, t[j].length, false, t[k].offset)
  {
  }

  /** What the walk reads from the gap start when a table suffix u starts at nextOffset and
      the gap is framed exactly when it can hold a pad header. */
  lemma TailBeforeSuffix(b: seq<byte>, padStart: nat, nextOffset: nat, framed: bool, u: seq<Section>)
    requires |b| % 8 == 0 && padStart % 8 == 0 && nextOffset % 8 == 0 && padStart <= nextOffset
    requires ScanFrom(b, nextOffset) == Scan(u, None) && framed == (padStart + 8 <= nextOffset)
    ensures WalkTail(b, padStart, nextOffset, framed) == Scan(GapSections(padStart, nextOffset) + u, None)
  {
    if !framed {
      assert padStart == nextOffset;
      assert [] + u == u;
    }
  }

  /** With the corrected check and fill, when a live section follows the slot, the new image
      parses to the old table with the slot's length renewed, a pad section in its gap, and
      every later live section kept. */
  lemma FixedKeepsLaterSections(b: seq<byte>, t: seq<Section>, name: seq<byte>, src: seq<byte>)
    requires ValidImageSize(|b|) && ParseImage(b) == Scan(t, None)
    requires FixedUpdateCheck(t, |b|, name, |src|) == Pass
    requires NamesClear(t, Locate(t, name, |b|).value.offset)
    requires NextLiveIndex(t, IndexOf(t, name, 0) + 1) < |t|
    ensures Locate(t, name, |b|).Ok? && SlotHolds(|b|, Locate(t, name, |b|).value, |src|)
    ensures var loc := Locate(t, name, |b|).value;
      var j := IndexOf(t, name, 0);
      var k := NextLiveIndex(t, j + 1);
      && j < k && loc.nextOffset == t[k].offset && GapStart(loc.offset, |src|) <= t[k].offset
      && ParseImage(FixedImage(b, loc, src))
         == Scan(t[..j] + [Renewed(t[j], |src| + FilenameLen + 4)]
                 + GapSections(GapStart(loc.offset, |src|), t[k].offset) + t[k..], None)
  {
    var loc := Locate(t, name, |b|).value;
    var j := IndexOf(t, name, 0);
    var k := NextLiveIndex(t, j + 1);
    FixedSlot(b, t, name, |src|);
    RewrittenShape(b, loc, src, FixedMinPadGap);
    ShapeKeepsLater(b, FixedImage(b, loc, src), t, j, k, loc, src);
  }

  /** The slot the corrected check passes, when a live section follows it. */
  lemma FixedSlot(b: seq<byte>, t: seq<Section>, name: seq<byte>, srcLen: nat)
    requires ValidImageSize(|b|) && ParseImage(b) == Scan(t, None)
    requires FixedUpdateCheck(t, |b|, name, srcLen) == Pass
    requires NextLiveIndex(t, IndexOf(t, name, 0) + 1) < |t|
    ensures Locate(t, name, |b|).Ok? && SlotHolds(|b|, Locate(t, name, |b|).value, srcLen)
    ensures var j := IndexOf(t, name, 0);
      var k := NextLiveIndex(t, j + 1);
      && j < k && Locate(t, name, |b|).value == Location(t[j].offset, t[j].length, false, t[k].offset)
  {
    FixedCheckHoldsSlot(b, t, name, srcLen);
    LocatedSlot(t, name, |b|);
    LiveSectionFollows(t, name, |b|);
  }

  /** The parse of an image with the shape of a rewrite of section j of a parsed table with
      an 8-byte minimum pad gap, when section k is the next live one. */
  lemma ShapeKeepsLater(b: seq<byte>, b': seq<byte>, t: seq<Section>, j: nat, k: nat, loc: Location, src: seq<byte>)
    requires |b| % 8 == 0 && ParseImage(b) == Scan(t, None) && j < k < |t|
    requires loc == Location(t[j].offset, t[j].length, false, t[k].offset)
    requires SlotHolds(|b|, loc, |src|) && NamesClear(t, loc.offset)
    requires RewriteShape(b, b', loc, src, Framed(loc, |src|, FixedMinPadGap))
    ensures GapStart(loc.offset, |src|) <= t[k].offset
    ensures ParseImage(b')
         == Scan(t[..j] + [Renewed(t[j], |src| + FilenameLen + 4)]
                 + GapSections(GapStart(loc.offset, |src|), t[k].offset) + t[k..], None)
  {
    var padStart := GapStart(loc.offset, |src|);
    var s' := Renewed(t[j], |src| + FilenameLen + 4);
    SlotGap(|b|, loc, |src|);
    ShapeParse(b, b', t, j, loc, src, Framed(loc, |src|, FixedMinPadGap));
    FixedTail(b, t, k, loc, |src|);
    AppendAssoc(t[..j] + [s'], GapSections(padStart, t[k].offset), t[k..]);
  }

  /** With an 8-byte minimum pad gap, the walk from the gap start reads the gap's sections
      and then the rest of the table from the next live section k. */
  lemma FixedTail(b: seq<byte>, t: seq<Section>, k: nat, loc: Location, srcLen: nat)
    requires |b| % 8 == 0 && ParseImage(b) == Scan(t, None) && k < |t|
    requires SlotHolds(|b|, loc, srcLen) && loc.nextOffset == t[k].offset && !loc.isLast
    ensures GapStart(loc.offset, srcLen) <= t[k].offset
    ensures WalkTail(b, GapStart(loc.offset, srcLen), t[k].offset, Framed(loc, srcLen, FixedMinPadGap))
         == Scan(GapSections(GapStart(loc.offset, srcLen), t[k].offset) + t[k..], None)
  {
    var padStart := GapStart(loc.offset, srcLen);
    SlotGap(|b|, loc, srcLen);
    ParsedSuffix(b, t, k);
    var framed := Framed(loc, srcLen, FixedMinPadGap);
    assert framed == (padStart + 8 <= t[k].offset);
    assert padStart % 8 == 0 && t[k].offset % 8 == 0 && padStart <= t[k].offset;
    assert ScanFrom(b, t[k].offset) == Scan(t[k..], None);
    TailBeforeSuffix(b, padStart, t[k].offset, framed, t[k..]);
  }

  /** The corrected update's round trip: get_file on the re-parsed image returns the new
      payload. */
  lemma FixedUpdateRoundTrip(b: seq<byte>, t: seq<Section>, name: seq<byte>, src: seq<byte>)
    requires ValidImageSize(|b|) && ParseImage(b) == Scan(t, None)
    requires FixedUpdateCheck(t, |b|, name, |src|) == Pass
    requires NamesClear(t, Locate(t, name, |b|).value.offset)
    ensures Locate(t, name, |b|).Ok? && SlotHolds(|b|, Locate(t, name, |b|).value, |src|)
    ensures var b' := FixedImage(b, Locate(t, name, |b|).value, src);
      FileBytes(ParseImage(b').sections, b', name) == Ok(src)
  {
    ValidImageSizeAligned(|b|);
    FixedCheckHoldsSlot(b, t, name, |src|);
    RewrittenGetFile(b, t, name, src, FixedMinPadGap);
  }
  /** The corrected update is idempotent: on the re-parsed image the same update passes the
      corrected check, finds the slot with its new length and the same gap, and writes back
      exactly the bytes that are already there. */
  lemma FixedUpdateIdempotent(b: seq<byte>, t: seq<Section>, name: seq<byte>, src: seq<byte>)
    requires ValidImageSize(|b|) && ParseImage(b) == Scan(t, None)
    requires FixedUpdateCheck(t, |b|, name, |src|) == Pass
    requires NamesClear(t, Locate(t, name, |b|).value.offset)
    requires NextLiveIndex(t, IndexOf(t, name, 0) + 1) < |t|
    ensures Locate(t, name, |b|).Ok? && SlotHolds(|b|, Locate(t, name, |b|).value, |src|)
    ensures var loc := Locate(t, name, |b|).value;
      var b1 := FixedImage(b, loc, src);
      var t1 := ParseImage(b1).sections;
      && ParseImage(b1).error == None
      && FixedUpdateCheck(t1, |b1|, name, |src|) == Pass
      && Locate(t1, name, |b1|) == Ok(Location(loc.offset, |src| + FilenameLen + 4, false, loc.nextOffset))
      && SlotHolds(|b1|, Locate(t1, name, |b1|).value, |src|)
      && FixedImage(b1, Locate(t1, name, |b1|).value, src) == b1
  {
    var loc := Locate(t, name, |b|).value;
    FixedReparseSlot(b, t, name, src);
    var b1 := FixedImage(b, loc, src);
    assert |b1| == |b|;
    var loc1 := Locate(ParseImage(b1).sections, name, |b1|).value;
    RewrittenSameSlot(b1, loc, loc1, src, FixedMinPadGap);
    RewrittenTwice(b, loc, src, FixedMinPadGap);
  }

  /** After the corrected update, the re-parsed table locates the slot at its old offset with
      its new length and the same next live section. */
  lemma FixedReparseSlot(b: seq<byte>, t: seq<Section>, name: seq<byte>, src: seq<byte>)
    requires ValidImageSize(|b|) && ParseImage(b) == Scan(t, None)
    requires FixedUpdateCheck(t, |b|, name, |src|) == Pass
    requires NamesClear(t, Locate(t, name, |b|).value.offset)
    requires NextLiveIndex(t, IndexOf(t, name, 0) + 1) < |t|
    ensures Locate(t, name, |b|).Ok? && SlotHolds(|b|, Locate(t, name, |b|).value, |src|)
    ensures var loc := Locate(t, name, |b|).value;
      var b1 := FixedImage(b, loc, src);
      && ParseImage(b1).error == None
      && Locate(ParseImage(b1).sections, name, |b|)
         == Ok(Location(loc.offset, |src| + FilenameLen + 4, false, loc.nextOffset))
  {
    var loc := Locate(t, name, |b|).value;
    var j := IndexOf(t, name, 0);
    var k := NextLiveIndex(t, j + 1);
    FixedKeepsLaterSections(b, t, name, src);
    FixedSlot(b, t, name, |src|);
    var g := GapSections(GapStart(loc.offset, |src|), t[k].offset);
    assert forall m :: 0 <= m < |g| ==> g[m].magic == PadMagic;
    RenewedLocate(t, name, |src| + FilenameLen + 4, g, t[k..], |b|);
  }

  /** update's lookup in a table whose slot was renewed and followed by pad sections and then
      a live section: the slot at its old offset with the new length, ending at that live
      section. */
  lemma RenewedLocate(t: seq<Section>, name: seq<byte>, n: nat, g: seq<Section>, rest: seq<Section>, imageSize: nat)
    requires IndexOf(t, name, 0) < |t|
    requires forall m :: 0 <= m < |g| ==> g[m].magic == PadMagic
    requires |rest| > 0 && rest[0].magic != PadMagic
    ensures var j := IndexOf(t, name, 0);
      Locate(t[..j] + [Renewed(t[j], n)] + g + rest, name, imageSize)
        == Ok(Location(t[j].offset, n, false, rest[0].offset))
  {
    var j := IndexOf(t, name, 0);
    var t1 := t[..j] + [Renewed(t[j], n)] + (g + rest);
    AppendAssoc(t[..j] + [Renewed(t[j], n)], g, rest);
    RenewedFirst(t, name, n, g + rest);
    var i := j + 1 + |g|;
    assert t1[i] == rest[0];
    assert LaterPads(t1, j, i) by {
      forall m | j < m < i && m < |t1| ensures t1[m].magic == PadMagic {
        assert t1[m] == g[m - j - 1];
      }
    }
    LocateHit(t1, name, imageSize, j);
  }
}
