/** The bootloader EEPROM image editor (class BootloaderImage of reversing/extract.py): it
    holds the whole image as one mutable byte buffer, builds the section table, and rewrites
    a file section's payload, length field and trailing padding in place. */
module BootImage {
  import opened Wrappers
  import opened Bytes
  import opened Sections

  datatype LoadError =
    | SizeError(actual: nat)          // not one of the two image sizes
    | ParseFailed(error: ParseError)  // the table walk raised

  datatype UpdateError =
    | NoTable                                   // find_file on an empty table
    | PastImageEnd                              // 'No space available - image past EOF.'
    | NotFound                                  // 'Update target ... not found'
    | Overflow(updateLen: nat, available: int)  // 'Update ... is larger than section size ...'
    | TooLarge(size: nat)                       // update_file: source above MaxFileSize

  // ---------------------------------------------------------------------------------------
  // What update checks and writes

  /** The checks of update, in the order it makes them, before it writes any byte. The slot
      test counts FileHdrLen bytes after the magic word, as the source does. */
  function UpdateCheck(t: seq<Section>, imageSize: nat, name: seq<byte>, srcLen: nat): Outcome<UpdateError> {
    match Locate(t, name, imageSize)
    case Err(_) => Fail(NoTable)
    case Ok(loc) =>
      var updateLen := srcLen + FileHdrLen;
      if loc.offset + updateLen > imageSize - EraseAlignSize then Fail(PastImageEnd)
      else if loc.offset < 0 then Fail(NotFound)
      else if loc.offset + updateLen > loc.nextOffset then Fail(Overflow(updateLen, loc.nextOffset - loc.offset))
      else Pass
  }

  /** The smallest gap update frames as a pad section (pad_bytes > 8), when the target is
      not the final entry. */
  const SourceMinPadGap: nat := 9

  /** Where the payload of the section at hdr starts: after magic, length, name and 4 bytes. */
  function PayloadStart(hdr: nat): nat {
    hdr + 4 + FileHdrLen
  }

  /** The bounds every write of update stays within. */
  predicate WritesFit(size: nat, loc: Location, srcLen: nat) {
    && size < U32Limit && loc.offset >= 0 && PayloadStart(loc.offset) + srcLen + 8 <= size
    && loc.nextOffset <= size
  }

  /** The image after update wrote the new length field, the payload and 0xFF up to the next
      8-byte boundary into the section at hdr. */
  function PayloadWritten(b: seq<byte>, hdr: nat, src: seq<byte>): seq<byte>
    requires |b| < U32Limit && PayloadStart(hdr) + |src| + 8 <= |b|
  {
    var b1 := Overwrite(b, hdr + 4, BE32(|src| + FilenameLen + 4));
    var dataEnd := PayloadStart(hdr) + |src|;
    var b2 := Overwrite(b1, PayloadStart(hdr), src);
    Overwrite(b2, dataEnd, Ones(AlignUp8(dataEnd) - dataEnd))
  }

  /** What update writes into a gap of the given width: a pad section header with 0xFF
      filler when the target is not the final entry and the gap is at least minPadGap,
      otherwise plain 0xFF (nothing when the gap is empty or negative). */
  function GapBytes(gap: int, isLast: bool, minPadGap: nat): (r: seq<byte>)
    requires gap < U32Limit && minPadGap >= 8
    ensures |r| == if gap > 0 then gap else 0
  {
    if gap >= minPadGap && !isLast then BE32(PadMagic) + BE32(gap - 8) + Ones(gap - 8)
    else Ones(if gap > 0 then gap else 0)
  }

  /** The gap from padStart to nextOffset as update leaves it. */
  function GapFilled(b: seq<byte>, padStart: nat, nextOffset: int, isLast: bool, minPadGap: nat): seq<byte>
    requires |b| < U32Limit && padStart <= |b| && nextOffset <= |b| && minPadGap >= 8
  {
    Overwrite(b, padStart, GapBytes(nextOffset - padStart, isLast, minPadGap))
  }

  /** The image after update wrote payload src into the section at loc, with a pad section
      header framing any gap of at least minPadGap bytes. */
  function Rewritten(b: seq<byte>, loc: Location, src: seq<byte>, minPadGap: nat): seq<byte>
    requires WritesFit(|b|, loc, |src|) && minPadGap >= 8
  {
    var padStart := AlignUp8(PayloadStart(loc.offset) + |src|);
    GapFilled(PayloadWritten(b, loc.offset, src), padStart, loc.nextOffset, loc.isLast, minPadGap)
  }

  /** The image update produces, as written. */
  function UpdatedImage(b: seq<byte>, loc: Location, src: seq<byte>): seq<byte>
    requires WritesFit(|b|, loc, |src|)
  {
    Rewritten(b, loc, src, SourceMinPadGap)
  }

  /** get_file: the slice of |length| - 16 bytes after the 24 header bytes of the located
      section, clamped as a Python slice is; a missing name gives the slice [23:6], empty. */
  function FileBytes(t: seq<Section>, b: seq<byte>, name: seq<byte>): Result<seq<byte>, LookupError> {
    match Locate(t, name, |b|)
    case Err(e) => Err(e)
    case Ok(loc) =>
      var start := loc.offset + 4 + FileHdrLen;
      Ok(PySlice(b, start, start + loc.length - FilenameLen - 4))
  }

  /** A Python slice index: negative ones count from the end, then clamp to [0, n]. */
  function SliceIndex(i: int, n: nat): (r: nat)
    ensures r <= n
    ensures 0 <= i <= n ==> r == i
  {
    if i < 0 then (if i + n < 0 then 0 else i + n) else if i > n then n else i
  }

  /** s[lo:hi] with Python's slice semantics. */
  function PySlice<T>(s: seq<T>, lo: int, hi: int): (r: seq<T>)
    ensures 0 <= lo <= hi <= |s| ==> r == s[lo..hi]
    ensures 0 <= hi <= lo ==> r == []
  {
    var a, z := SliceIndex(lo, |s|), SliceIndex(hi, |s|);
    if a < z then s[a..z] else []
  }

  // ---------------------------------------------------------------------------------------
  // The editor

  class BootloaderImage {
    /** The image; its length never changes, its bytes are rewritten in place. */
    const bytes: array<byte>
    const imageSize: nat
    /** The section table, as parse appended it. */
    var sections: seq<Section>

    ghost predicate Valid()
      reads this
    {
      && imageSize == bytes.Length && ValidImageSize(imageSize)
      && (forall i :: 0 <= i < |sections| ==> SectionInImage(sections[i], imageSize))
    }

    constructor (data: seq<byte>)
      requires ValidImageSize(|data|)
      ensures Valid() && fresh(bytes) && bytes[..] == data && sections == []
    {
      bytes := new byte[|data|](i requires 0 <= i < |data| => data[i]);
      imageSize := |data|;
      sections := [];
    }

    /** __init__: refuse an image of the wrong size, then build the section table. */
    static method Open(data: seq<byte>) returns (r: Result<BootloaderImage, LoadError>)
      ensures r.Err? && r.error.SizeError? <==> !ValidImageSize(|data|)
      ensures !ValidImageSize(|data|) ==> r == Err(SizeError(|data|))
      ensures ValidImageSize(|data|) ==>
        var scan := ParseImage(data);
        && (scan.error.Some? ==> r == Err(ParseFailed(scan.error.value)))
        && (scan.error.None? ==>
              (r.Ok? && fresh(r.value) && fresh(r.value.bytes) && r.value.Valid()
               && r.value.bytes[..] == data && r.value.sections == scan.sections))
    {
      if !ValidImageSize(|data|) {
        return Err(SizeError(|data|));
      }
      ValidImageSizeAligned(|data|);
      var img := new BootloaderImage(data);
      var outcome := img.Parse();
      if outcome.Fail? {
        return Err(ParseFailed(outcome.error));
      }
      return Ok(img);
    }

    /** parse: walk the table from offset 0, appending each section read to the table
        (which it never clears). */
    method Parse() returns (r: Outcome<ParseError>)
      requires Valid()
      modifies this
      ensures Valid()
      ensures var scan := ParseImage(bytes[..]);
        && sections == old(sections) + scan.sections
        && r == if scan.error.None? then Pass else Fail(scan.error.value)
    {
      ValidImageSizeAligned(imageSize);
      ghost var b := bytes[..];
      ghost var before := sections;
      ghost var done: seq<Section> := [];
      var offset: nat := 0;
      while offset < imageSize
        invariant offset % 8 == 0 && Valid() && bytes[..] == b
        invariant sections == before + done
        invariant done <= ParseImage(b).sections && ChainEnd(0, done) == offset
        decreases imageSize - offset
      {
        AlignedRoom(offset, imageSize);
        var magic := ReadBE32(bytes[..], offset);
        var length := ReadBE32(bytes[..], offset + 4);
        if IsTableEnd(magic) {
          break;
        } else if !MagicMatches(magic) {
          ParseCorruptedAt(b, done);
          return Fail(Corrupted(offset, magic));
        }
        var name := SectionName(bytes[..], offset, magic);
        if name.Err? {
          ParseBadNameAt(b, done);
          return Fail(name.error);
        }
        var s := Section(magic, offset, length, name.value);
        ghost var prior := done;
        AppendInImage(sections, s, imageSize);
        sections := sections + [s];
        done := done + [s];
        offset := offset + 8 + length;
        offset := AlignUp8(offset);
        ParseGoesOn(b, prior, s, done, offset);
        assert before + prior + [s] == before + done;
      }
      ParseEndsAt(b, done);
      return Pass;
    }

    /** find_file: scan for the first section with that name, then on for the next live one. */
    method FindFile(name: seq<byte>) returns (r: Result<Location, LookupError>)
      requires Valid()
      ensures r == Locate(sections, name, imageSize)
    {
      if |sections| == 0 {
        // the loop variable i is unbound after an empty for loop
        return Err(EmptyTable);
      }
      var offset: int, length: int, isLast := -1, -1, false;
      var nextOffset := imageSize - EraseAlignSize;
      var i := 0;
      while i < |sections|
        invariant 0 <= i <= |sections| && IndexOf(sections, name, i) == IndexOf(sections, name, 0)
        invariant offset == -1 && length == -1 && !isLast
      {
        if sections[i].filename == name {
          isLast := i == |sections| - 1;
          offset := sections[i].offset;
          length := sections[i].length;
          break;
        }
        i := i + 1;
      }
      // after the for loop i is the hit, or the last index; the search resumes one further
      i := if i < |sections| then i + 1 else |sections|;
      ghost var from := i;
      while i < |sections|
        invariant from <= i <= |sections| && NextLiveIndex(sections, i) == NextLiveIndex(sections, from)
        invariant nextOffset == imageSize - EraseAlignSize
      {
        if sections[i].magic == PadMagic {
          i := i + 1;
        } else {
          nextOffset := sections[i].offset;
          break;
        }
      }
      return Ok(Location(offset, length, isLast, nextOffset));
    }

    /** struct.pack_into('>L', bytes, at, v). */
    method PackU32(at: nat, v: nat)
      requires at + 4 <= bytes.Length && v < U32Limit
      modifies bytes
      ensures bytes[..] == Overwrite(old(bytes[..]), at, BE32(v))
    {
      var w := BE32(v);
      bytes[at], bytes[at + 1], bytes[at + 2], bytes[at + 3] := w[0], w[1], w[2], w[3];
      OverwriteSpec(old(bytes[..]), at, w);
      assert bytes[..] == Overwrite(old(bytes[..]), at, w);
    }

    /** struct.pack_into('%ds', bytes, at, w). */
    method PackBytes(at: nat, w: seq<byte>)
      requires at + |w| <= bytes.Length
      modifies bytes
      ensures bytes[..] == Overwrite(old(bytes[..]), at, w)
    {
      var k := 0;
      while k < |w|
        invariant k <= |w| && bytes[..] == Overwrite(old(bytes[..]), at, w[..k])
      {
        OverwriteExtend(old(bytes[..]), at, w[..k], w[k]);
        bytes[at + k] := w[k];
        assert w[..k + 1] == w[..k] + [w[k]];
        k := k + 1;
      }
      assert w[..k] == w;
    }

    /** update: check, then rewrite the located section's length field and payload and
        regenerate the padding after it. */
    method Update(src: seq<byte>, name: seq<byte>) returns (r: Outcome<UpdateError>)
      requires Valid()
      modifies bytes
      ensures r == UpdateCheck(sections, imageSize, name, |src|)
      ensures r.Fail? ==> bytes[..] == old(bytes[..])
      ensures r.Pass? ==>
        (UpdateFits(sections, imageSize, name, |src|)
         && bytes[..] == UpdatedImage(old(bytes[..]), Locate(sections, name, imageSize).value, src))
    {
      var found := FindFile(name);
      if found.Err? {
        return Fail(NoTable);
      }
      var loc := found.value;
      var hdrOffset := loc.offset;
      var updateLen := |src| + FileHdrLen;
      if hdrOffset + updateLen > imageSize - EraseAlignSize {
        return Fail(PastImageEnd);
      }
      if hdrOffset < 0 {
        return Fail(NotFound);
      }
      if hdrOffset + updateLen > loc.nextOffset {
        return Fail(Overflow(updateLen, loc.nextOffset - hdrOffset));
      }
      CheckedWritesFit(sections, imageSize, name, |src|);
      Rewrite(loc, src);
      return Pass;
    }

    /** The writes of update once its checks have passed. */
    method Rewrite(loc: Location, src: seq<byte>)
      requires bytes.Length == imageSize && WritesFit(imageSize, loc, |src|)
      modifies bytes
      ensures bytes[..] == UpdatedImage(old(bytes[..]), loc, src)
    {
      ghost var b0 := bytes[..];
      var padStart := WritePayload(loc.offset, src);
      ghost var b3 := bytes[..];
      FillGap(padStart, loc.nextOffset, loc.isLast);
      GapSteps(b0, b3, bytes[..], loc, src);
    }

    /** The new length field, the payload, and 0xFF up to the next 8-byte boundary. */
    method WritePayload(hdrOffset: nat, src: seq<byte>) returns (padStart: nat)
      requires bytes.Length < U32Limit && PayloadStart(hdrOffset) + |src| + 8 <= bytes.Length
      modifies bytes
      ensures padStart == AlignUp8(PayloadStart(hdrOffset) + |src|)
      ensures bytes[..] == PayloadWritten(old(bytes[..]), hdrOffset, src)
    {
      var newLen := |src| + FilenameLen + 4;
      ghost var b0 := bytes[..];
      PackU32(hdrOffset + 4, newLen);
      ghost var b1 := bytes[..];
      PackBytes(hdrOffset + 4 + FileHdrLen, src);
      ghost var b2 := bytes[..];
      padStart := hdrOffset + 4 + FileHdrLen + |src|;
      padStart := EraseToBoundary(padStart);
      PayloadSteps(b0, b1, b2, bytes[..], hdrOffset, src, padStart);
    }

    /** The gap from padStart to nextOffset: framed as a pad section unless it is no larger
        than a section header or the target is the final entry, otherwise erased. */
    method FillGap(padStart: nat, nextOffset: int, isLast: bool)
      requires bytes.Length < U32Limit && padStart <= bytes.Length && nextOffset <= bytes.Length
      modifies bytes
      ensures bytes[..] == GapFilled(old(bytes[..]), padStart, nextOffset, isLast, SourceMinPadGap)
    {
      var padBytes := nextOffset - padStart;
      if padBytes > 8 && !isLast {
        padBytes := padBytes - 8;
        WritePadSection(padStart, padBytes);
      } else if padBytes > 0 {
        FillErased(padStart, padBytes);
      } else {
        OverwriteEmpty(bytes[..], padStart);
      }
    }

    /** A pad section header (PAD_MAGIC, then n as its length) at at, then n bytes of 0xFF. */
    method WritePadSection(at: nat, n: nat)
      requires at + 8 + n <= bytes.Length && n < U32Limit
      modifies bytes
      ensures bytes[..] == Overwrite(old(bytes[..]), at, BE32(PadMagic) + BE32(n) + Ones(n))
    {
      ghost var b3 := bytes[..];
      PackU32(at, PadMagic);
      ghost var b4 := bytes[..];
      PackU32(at + 4, n);
      ghost var b5 := bytes[..];
      FillErased(at + 8, n);
      PadSteps(b3, b4, b5, bytes[..], at, n);
    }

    /** Set bytes to the erase value from start up to the next 8-byte boundary. */
    method EraseToBoundary(start: nat) returns (padStart: nat)
      requires AlignUp8(start) <= bytes.Length
      modifies bytes
      ensures padStart == AlignUp8(start)
      ensures bytes[..] == Overwrite(old(bytes[..]), start, Ones(padStart - start))
    {
      padStart := start;
      OverwriteEmpty(bytes[..], start);
      while padStart % 8 != 0
        invariant start <= padStart <= AlignUp8(start)
        invariant bytes[..] == Overwrite(old(bytes[..]), start, Ones(padStart - start))
        decreases AlignUp8(start) - padStart
      {
        OverwriteExtend(old(bytes[..]), start, Ones(padStart - start), 0xFF);
        bytes[padStart] := 0xFF;
        assert Ones(padStart - start) + [0xFF] == Ones(padStart + 1 - start);
        padStart := padStart + 1;
      }
    }

    /** Set n bytes from at to the erase value. */
    method FillErased(at: nat, n: nat)
      requires at + n <= bytes.Length
      modifies bytes
      ensures bytes[..] == Overwrite(old(bytes[..]), at, Ones(n))
    {
      var pad := 0;
      OverwriteEmpty(bytes[..], at);
      while pad < n
        invariant pad <= n
        invariant bytes[..] == Overwrite(old(bytes[..]), at, Ones(pad))
      {
        OverwriteExtend(old(bytes[..]), at, Ones(pad), 0xFF);
        bytes[at + pad] := 0xFF;
        assert Ones(pad) + [0xFF] == Ones(pad + 1);
        pad := pad + 1;
      }
    }

    /** update_file: refuse a source longer than MaxFileSize, else update. */
    method UpdateFile(src: seq<byte>, name: seq<byte>) returns (r: Outcome<UpdateError>)
      requires Valid()
      modifies bytes
      ensures |src| > MaxFileSize ==> r == Fail(TooLarge(|src|))
      ensures |src| <= MaxFileSize ==> r == UpdateCheck(sections, imageSize, name, |src|)
      ensures r.Fail? ==> bytes[..] == old(bytes[..])
      ensures r.Pass? ==>
        (UpdateFits(sections, imageSize, name, |src|)
         && bytes[..] == UpdatedImage(old(bytes[..]), Locate(sections, name, imageSize).value, src))
    {
      if |src| > MaxFileSize {
        return Fail(TooLarge(|src|));
      }
      r := Update(src, name);
    }

    /** get_file: the payload bytes of the named section. */
    method GetFile(name: seq<byte>) returns (r: Result<seq<byte>, LookupError>)
      requires Valid()
      ensures r == FileBytes(sections, bytes[..], name)
    {
      var found := FindFile(name);
      if found.Err? {
        return Err(found.error);
      }
      var loc := found.value;
      var offset := loc.offset + 4 + FileHdrLen;
      return Ok(PySlice(bytes[..], offset, offset + loc.length - FilenameLen - 4));
    }
  }

  /** Appending a section that lies in the image keeps every entry in the image. */
  lemma AppendInImage(t: seq<Section>, s: Section, imageSize: nat)
    requires forall i :: 0 <= i < |t| ==> SectionInImage(t[i], imageSize)
    requires SectionInImage(s, imageSize)
    ensures forall i :: 0 <= i < |t + [s]| ==> SectionInImage((t + [s])[i], imageSize)
  {
  }

  /** An aligned offset below an aligned size leaves room for a whole 8-byte header. */
  lemma AlignedRoom(offset: nat, size: nat)
    requires offset % 8 == 0 && size % 8 == 0 && offset < size
    ensures offset + 8 <= size
  {
  }

  /** A prefix of the parsed table followed by a stored section is a longer prefix. */
  lemma ParseGoesOn(b: seq<byte>, done: seq<Section>, s: Section, done': seq<Section>, offset': nat)
    requires |b| % 8 == 0 && done <= ParseImage(b).sections
    requires s.offset == ChainEnd(0, done) && SectionAt(b, s)
    requires done' == done + [s] && offset' == AlignUp8(s.offset + 8 + s.length)
    ensures done' <= ParseImage(b).sections && ChainEnd(0, done') == offset'
  {
    NextSectionIs(s.offset, s.length, offset');
    ParsedPrefix(b, done);
    ChainSnoc(b, 0, done, s);
    ScanFromSection(b, s);
    var rest := ScanFrom(b, NextSection(s.offset, s.length)).sections;
    PrefixOfAppend(ParseImage(b).sections, done, ScanFrom(b, s.offset).sections, s, rest);
  }

  /** The two steps parse takes to the next section, in one. */
  lemma NextSectionIs(offset: nat, length: nat, next: nat)
    requires next == AlignUp8(offset + 8 + length)
    ensures NextSection(offset, length) == next
  {
  }

  /** all is u, then x, then v: u + [x] is a prefix of all. */
  lemma PrefixOfAppend<T>(all: seq<T>, u: seq<T>, r: seq<T>, x: T, v: seq<T>)
    requires all == u + r && r == [x] + v
    ensures u + [x] <= all
  {
    assert all == (u + [x]) + v;
  }

  /** A prefix of the parsed table that runs into the end of the table is the whole parse. */
  lemma ParseEndsAt(b: seq<byte>, done: seq<Section>)
    requires |b| % 8 == 0 && done <= ParseImage(b).sections
    requires ChainEnd(0, done) >= |b|
      || (ChainEnd(0, done) + 8 <= |b| && IsTableEnd(ReadBE32(b, ChainEnd(0, done))))
    ensures ParseImage(b) == Scan(done, None)
  {
    ParsedPrefix(b, done);
    assert done + [] == done;
  }

  /** A prefix of the parsed table followed by a word of a foreign family: the parse reports
      it as corrupted. */
  lemma ParseCorruptedAt(b: seq<byte>, done: seq<Section>)
    requires |b| % 8 == 0 && done <= ParseImage(b).sections && ChainEnd(0, done) + 8 <= |b|
    requires var magic := ReadBE32(b, ChainEnd(0, done));
      !IsTableEnd(magic) && !MagicMatches(magic)
    ensures ParseImage(b) == Scan(done, Some(Corrupted(ChainEnd(0, done), ReadBE32(b, ChainEnd(0, done)))))
  {
    ParsedPrefix(b, done);
    assert done + [] == done;
  }

  /** A prefix of the parsed table followed by a section whose name cannot be read: the parse
      reports that. */
  lemma ParseBadNameAt(b: seq<byte>, done: seq<Section>)
    requires |b| % 8 == 0 && done <= ParseImage(b).sections && ChainEnd(0, done) + 8 <= |b|
    requires var magic := ReadBE32(b, ChainEnd(0, done));
      !IsTableEnd(magic) && MagicMatches(magic) && SectionName(b, ChainEnd(0, done), magic).Err?
    ensures var magic := ReadBE32(b, ChainEnd(0, done));
      ParseImage(b) == Scan(done, Some(SectionName(b, ChainEnd(0, done), magic).error))
  {
    ParsedPrefix(b, done);
    assert done + [] == done;
  }

  /** The three writes before the gap, done one after another, give PayloadWritten. */
  lemma PayloadSteps(b0: seq<byte>, b1: seq<byte>, b2: seq<byte>, b3: seq<byte>, hdr: nat, src: seq<byte>, aligned: nat)
    requires |b0| < U32Limit && PayloadStart(hdr) + |src| + 8 <= |b0|
    requires aligned == AlignUp8(PayloadStart(hdr) + |src|)
    requires b1 == Overwrite(b0, hdr + 4, BE32(|src| + FilenameLen + 4))
    requires b2 == Overwrite(b1, PayloadStart(hdr), src)
    requires b3 == Overwrite(b2, PayloadStart(hdr) + |src|, Ones(aligned - (PayloadStart(hdr) + |src|)))
    ensures b3 == PayloadWritten(b0, hdr, src)
  {
  }

  /** The writes before the gap followed by the gap's fill are the whole update. */
  lemma GapSteps(b0: seq<byte>, b3: seq<byte>, b6: seq<byte>, loc: Location, src: seq<byte>)
    requires WritesFit(|b0|, loc, |src|)
    requires b3 == PayloadWritten(b0, loc.offset, src)
    requires b6 == GapFilled(b3, AlignUp8(PayloadStart(loc.offset) + |src|), loc.nextOffset, loc.isLast, SourceMinPadGap)
    ensures b6 == UpdatedImage(b0, loc, src)
  {
  }

  /** The pad header's two fields and its filler, written one after another, are one write. */
  lemma PadSteps(b3: seq<byte>, b4: seq<byte>, b5: seq<byte>, b6: seq<byte>, at: nat, n: nat)
    requires at + 8 + n <= |b3| && n < U32Limit
    requires b4 == Overwrite(b3, at, BE32(PadMagic))
    requires b5 == Overwrite(b4, at + 4, BE32(n))
    requires b6 == Overwrite(b5, at + 8, Ones(n))
    ensures b6 == Overwrite(b3, at, BE32(PadMagic) + BE32(n) + Ones(n))
  {
    OverwriteConcat(b3, at, BE32(PadMagic), BE32(n));
    OverwriteConcat(b3, at, BE32(PadMagic) + BE32(n), Ones(n));
  }

  /** A table entry the editor can write around: aligned and wholly inside the image. */
  predicate SectionInImage(s: Section, imageSize: nat) {
    s.offset % 8 == 0 && s.offset + 8 <= imageSize
  }

  /** The located slot when update's checks pass: the bounds its writes need. */
  predicate UpdateFits(t: seq<Section>, imageSize: nat, name: seq<byte>, srcLen: nat) {
    Locate(t, name, imageSize).Ok? && WritesFit(imageSize, Locate(t, name, imageSize).value, srcLen)
  }

  /** When update's checks pass, the located section exists and every write lands inside the
      image: the payload ends at least 4092 bytes before the image end. */
  lemma CheckedWritesFit(t: seq<Section>, imageSize: nat, name: seq<byte>, srcLen: nat)
    requires ValidImageSize(imageSize)
    requires forall i :: 0 <= i < |t| ==> SectionInImage(t[i], imageSize)
    requires UpdateCheck(t, imageSize, name, srcLen) == Pass
    ensures UpdateFits(t, imageSize, name, srcLen)
    ensures var loc := Locate(t, name, imageSize).value;
      PayloadStart(loc.offset) + srcLen <= imageSize - EraseAlignSize + 4
      && loc.nextOffset % 8 == 0 && loc.offset % 8 == 0
  {
    var i := IndexOf(t, name, 0);
    var k := NextLiveIndex(t, i + 1);
    assert i < |t| && SectionInImage(t[i], imageSize);
    if k < |t| {
      assert SectionInImage(t[k], imageSize);
    }
  }
}
