/** The section table of a bootloader EEPROM image (reversing/extract.py): the layout
    constants, the names sections are given, the table parse and the lookup by name. */
module Sections {
  import opened Wrappers
  import opened Bytes
  import Utf8

  const ValidImageSizes: seq<nat> := [512 * 1024, 2 * 1024 * 1024]

  /** The bits every section magic shares under the mask 0xfffff00f. */
  const Magic: nat := 0x55aa_f00f
  const PadMagic: nat := 0x55aa_feef
  /** Magic of the sections holding modifiable files. */
  const FileMagic: nat := 0x55aa_f11f
  const FileHdrLen: nat := 20
  const FilenameLen: nat := 12
  /** Modifiable files live in one 4K erasable sector, which also bounds their size. */
  const EraseAlignSize: nat := 4096
  const MaxFileSize: nat := EraseAlignSize - FileHdrLen

  predicate ValidImageSize(n: nat) {
    n in ValidImageSizes
  }

  /** Every valid image size is a whole number of erase sectors (hence of 8-byte words). */
  lemma ValidImageSizeAligned(n: nat)
    requires ValidImageSize(n)
    ensures n % EraseAlignSize == 0 && n % 8 == 0 && n >= 2 * EraseAlignSize
  {
  }

  /** A magic value of the section family: (magic & 0xfffff00f) == Magic. The mask keeps
      bits 31..12 and 3..0, so the test compares those two bit fields with Magic's. */
  predicate MagicMatches(magic: nat)
    requires magic < U32Limit
  {
    magic / 0x1000 == Magic / 0x1000 && magic % 0x10 == Magic % 0x10
  }

  /** The magic values that end the table (an erased or zeroed word). */
  predicate IsTableEnd(magic: nat) {
    magic == 0 || magic == 0xffff_ffff
  }

  /** The three special magic values are members of the section family; the end markers are not. */
  lemma MagicFamily()
    ensures MagicMatches(Magic) && MagicMatches(PadMagic) && MagicMatches(FileMagic)
    ensures !MagicMatches(0) && !MagicMatches(0xffff_ffff)
  {
  }

  /** (x + 7) & ~7: the least multiple of 8 that is at least x. */
  function AlignUp8(x: nat): (r: nat)
    ensures r % 8 == 0 && x <= r < x + 8
  {
    (x + 7) / 8 * 8
  }

  /** Where the section after a section at offset with the given length starts. */
  function NextSection(offset: nat, length: nat): (r: nat)
    ensures r % 8 == 0 && offset + 8 + length <= r < offset + 16 + length
  {
    AlignUp8(offset + 8 + length)
  }

  /** An entry of the section table. Filenames are kept as their UTF-8 bytes. */
  datatype Section = Section(magic: nat, offset: nat, length: nat, filename: seq<byte>)

  datatype ParseError =
    | Corrupted(offset: nat, magic: nat)  // the magic is outside the section family
    | BadFilename(offset: nat)            // a file name that is not UTF-8

  // ---------------------------------------------------------------------------------------
  // Section names

  /** The ASCII decimal digits of n, as '%d' formats it. */
  function Decimal(n: nat): seq<byte>
    decreases n
  {
    if n < 10 then [0x30 + n] else Decimal(n / 10) + [0x30 + n % 10]
  }

  /** '%d' gives at least one digit, and only digits. */
  lemma {:induction false} DecimalDigits(n: nat)
    ensures |Decimal(n)| > 0 && forall k :: 0 <= k < |Decimal(n)| ==> 0x30 <= Decimal(n)[k] <= 0x39
    decreases n
  {
    if n >= 10 {
      DecimalDigits(n / 10);
    }
  }

  /** The number a string of ASCII decimal digits denotes. */
  function DecimalValue(s: seq<byte>): int
  {
    if |s| == 0 then 0 else DecimalValue(s[..|s| - 1]) * 10 + (s[|s| - 1] as int - 0x30)
  }

  lemma {:induction false} DecimalRoundTrip(n: nat)
    ensures DecimalValue(Decimal(n)) == n
  {
    if n >= 10 {
      var d := Decimal(n / 10) + [0x30 + n % 10];
      assert d[..|d| - 1] == Decimal(n / 10);
      DecimalRoundTrip(n / 10);
    }
  }

  const BinSuffix: seq<byte> := [0x2e, 0x62, 0x69, 0x6e]  // ".bin"

  /** The name f"{offset}.bin" given to every section that is not a file section. */
  function SyntheticName(offset: nat): seq<byte> {
    Decimal(offset) + BinSuffix
  }

  /** Distinct offsets give distinct synthetic names, so such a name picks one section. */
  lemma SyntheticNamesDistinct(o1: nat, o2: nat)
    requires o1 != o2
    ensures SyntheticName(o1) != SyntheticName(o2)
  {
    if SyntheticName(o1) == SyntheticName(o2) {
      var s := SyntheticName(o1);
      assert Decimal(o1) == s[..|s| - 4] == Decimal(o2);
      DecimalRoundTrip(o1);
      DecimalRoundTrip(o2);
    }
  }

  /** s with every NUL removed, wherever it stands (str.replace('\0', '')). */
  function RemoveNuls(s: seq<byte>): seq<byte>
  {
    if |s| == 0 then []
    else
      assert s == [s[0]] + s[1..];
      if s[0] == 0 then RemoveNuls(s[1..]) else [s[0]] + RemoveNuls(s[1..])
  }

  /** Removing NULs leaves no NUL, and never lengthens. */
  lemma {:induction false} RemoveNulsShrinks(s: seq<byte>)
    ensures 0 !in RemoveNuls(s) && |RemoveNuls(s)| <= |s|
  {
    if |s| > 0 {
      RemoveNulsShrinks(s[1..]);
    }
  }

  /** Removing NULs keeps every other byte, as often as it occurs. */
  lemma {:induction false} RemoveNulsKeeps(s: seq<byte>, x: byte)
    requires x != 0
    ensures multiset(RemoveNuls(s))[x] == multiset(s)[x]
  {
    if |s| > 0 {
      assert s == [s[0]] + s[1..];
      RemoveNulsKeeps(s[1..], x);
    }
  }

  /** NULs are removed wherever they stand: the NUL-free text of a concatenation is the
      concatenation of the NUL-free texts, so a NUL in the middle of a name goes too. */
  lemma {:induction false} RemoveNulsConcat(a: seq<byte>, b: seq<byte>)
    ensures RemoveNuls(a + b) == RemoveNuls(a) + RemoveNuls(b)
    decreases |a|
  {
    if |a| > 0 {
      assert (a + b)[1..] == a[1..] + b;
      RemoveNulsConcat(a[1..], b);
    } else {
      assert a + b == b;
    }
  }

  /** Text without a NUL is left as it is; so removing NULs twice is removing them once. */
  lemma {:induction false} RemoveNulsFixed(s: seq<byte>)
    requires 0 !in s
    ensures RemoveNuls(s) == s
  {
    if |s| > 0 {
      assert s == [s[0]] + s[1..];
      RemoveNulsFixed(s[1..]);
    }
  }

  /** The raw 12 bytes after a header, clamped at the image end as a slice is. */
  function RawFilename(b: seq<byte>, offset: nat): seq<byte>
    requires offset + 8 <= |b|
  {
    b[offset + 8 .. if offset + FileHdrLen <= |b| then offset + FileHdrLen else |b|]
  }

  /** The name of the section at offset: the NUL-stripped embedded name of a file section,
      the synthetic name of any other. */
  function SectionName(b: seq<byte>, offset: nat, magic: nat): Result<seq<byte>, ParseError>
    requires offset + 8 <= |b|
  {
    if magic == FileMagic then
      var raw := RawFilename(b, offset);
      if Utf8.Valid(raw) then Ok(RemoveNuls(raw)) else Err(BadFilename(offset))
    else Ok(SyntheticName(offset))
  }

  /** A file section is named by its embedded bytes with every NUL removed, and fails only
      when they are not UTF-8; every other section gets its synthetic name. */
  lemma SectionNameSpec(b: seq<byte>, offset: nat, magic: nat)
    requires offset + 8 <= |b|
    ensures var r := SectionName(b, offset, magic);
      && (r.Err? <==> magic == FileMagic && !Utf8.Valid(RawFilename(b, offset)))
      && (r.Err? ==> r.error == BadFilename(offset))
      && (r.Ok? && magic == FileMagic ==> 0 !in r.value && |r.value| <= FilenameLen)
      && (r.Ok? && magic != FileMagic ==> r.value == Decimal(offset) + BinSuffix)
  {
    RemoveNulsShrinks(RawFilename(b, offset));
  }

  // ---------------------------------------------------------------------------------------
  // Parsing

  /** The sections read before the table walk stopped, and the error that stopped it, if any. */
  datatype Scan = Scan(sections: seq<Section>, error: Option<ParseError>)

  /** The table walk from offset: read (magic, length) big-endian, stop at an end marker or at
      the image end, fail on a foreign magic, else record the section and go on at the next
      8-byte boundary after its body. */
  function ScanFrom(b: seq<byte>, offset: nat): Scan
    requires |b| % 8 == 0 && offset % 8 == 0
    decreases |b| - offset
  {
    if offset >= |b| then Scan([], None)
    else
      var magic := ReadBE32(b, offset);
      var length := ReadBE32(b, offset + 4);
      if IsTableEnd(magic) then Scan([], None)
      else if !MagicMatches(magic) then Scan([], Some(Corrupted(offset, magic)))
      else match SectionName(b, offset, magic)
        case Err(e) => Scan([], Some(e))
        case Ok(name) =>
          var rest := ScanFrom(b, NextSection(offset, length));
          Scan([Section(magic, offset, length, name)] + rest.sections, rest.error)
  }

  /** The parse of a whole image; the table is usable only when error is None. */
  function ParseImage(b: seq<byte>): Scan
    requires |b| % 8 == 0
  {
    ScanFrom(b, 0)
  }

  /** s is a section stored in b: aligned, inside the image, its header read at its offset,
      a member of the family, and named as the parser names it. */
  predicate SectionAt(b: seq<byte>, s: Section) {
    && s.offset % 8 == 0 && s.offset + 8 <= |b|
    && ReadBE32(b, s.offset) == s.magic
    && ReadBE32(b, s.offset + 4) == s.length
    && !IsTableEnd(s.magic) && MagicMatches(s.magic)
    && SectionName(b, s.offset, s.magic) == Ok(s.filename)
  }

  /** Where the walk goes after reading the sections t from start. */
  function ChainEnd(start: nat, t: seq<Section>): nat
    decreases |t|
  {
    if |t| == 0 then start else ChainEnd(NextSection(t[0].offset, t[0].length), t[1..])
  }

  /** t is a run of sections of b, the first at start and each at its predecessor's successor. */
  ghost predicate Chain(b: seq<byte>, start: nat, t: seq<Section>)
    decreases |t|
  {
    && start % 8 == 0
    && (|t| > 0 ==>
         && t[0].offset == start && SectionAt(b, t[0])
         && Chain(b, NextSection(t[0].offset, t[0].length), t[1..]))
  }

  /** The walk stops at offset: the image end, or an end marker. */
  predicate TableEnds(b: seq<byte>, offset: nat)
    requires |b| % 8 == 0 && offset % 8 == 0
  {
    offset >= |b| || (offset + 8 <= |b| && IsTableEnd(ReadBE32(b, offset)))
  }

  /** t is the section table of b: a chain from offset 0 that runs into the end of the table. */
  ghost predicate IsTable(b: seq<byte>, t: seq<Section>)
    requires |b| % 8 == 0
  {
    Chain(b, 0, t) && ChainEnd(0, t) % 8 == 0 && TableEnds(b, ChainEnd(0, t))
  }

  lemma {:induction false} ChainEndAligned(b: seq<byte>, start: nat, t: seq<Section>)
    requires Chain(b, start, t)
    ensures ChainEnd(start, t) % 8 == 0
    decreases |t|
  {
    if |t| > 0 {
      ChainEndAligned(b, NextSection(t[0].offset, t[0].length), t[1..]);
    }
  }

  /** The walk from start reads a chain of sections. */
  lemma {:induction false} ScanFromChain(b: seq<byte>, start: nat)
    requires |b| % 8 == 0 && start % 8 == 0
    ensures Chain(b, start, ScanFrom(b, start).sections)
    decreases |b| - start
  {
    var r := ScanFrom(b, start);
    if r.sections != [] {
      var magic := ReadBE32(b, start);
      var length := ReadBE32(b, start + 4);
      var next := NextSection(start, length);
      ScanFromChain(b, next);
      assert r.sections[1..] == ScanFrom(b, next).sections;
    }
  }

  /** Where the walk from start stops, just past the chain it read: without error at the end
      of the table; with an error at a word that is no end marker, named by the error. */
  lemma {:induction false} ScanFromStop(b: seq<byte>, start: nat)
    requires |b| % 8 == 0 && start % 8 == 0
    ensures var r := ScanFrom(b, start);
      var stop := ChainEnd(start, r.sections);
      && stop % 8 == 0
      && (r.error.None? ==> TableEnds(b, stop))
      && (r.error.Some? ==> stop + 8 <= |b| && !IsTableEnd(ReadBE32(b, stop)))
      && (r.error.Some? && r.error.value.Corrupted? ==>
            r.error.value == Corrupted(stop, ReadBE32(b, stop)) && !MagicMatches(ReadBE32(b, stop)))
      && (r.error.Some? && r.error.value.BadFilename? ==>
            r.error.value == BadFilename(stop) && ReadBE32(b, stop) == FileMagic
            && !Utf8.Valid(RawFilename(b, stop)))
    decreases |b| - start
  {
    var r := ScanFrom(b, start);
    if r.sections != [] {
      var length := ReadBE32(b, start + 4);
      var next := NextSection(start, length);
      ScanFromStop(b, next);
      assert r.sections[1..] == ScanFrom(b, next).sections;
      assert ChainEnd(start, r.sections) == ChainEnd(next, ScanFrom(b, next).sections);
    }
  }

  /** The walk records a section stored at its offset and goes on at its successor. */
  lemma ScanFromSection(b: seq<byte>, s: Section)
    requires |b| % 8 == 0 && SectionAt(b, s)
    ensures var rest := ScanFrom(b, NextSection(s.offset, s.length));
      ScanFrom(b, s.offset) == Scan([s] + rest.sections, rest.error)
  {
    assert ReadBE32(b, s.offset) == s.magic && ReadBE32(b, s.offset + 4) == s.length;
  }

  lemma ConsAppend<T>(u: seq<T>, c: seq<T>)
    requires |u| > 0
    ensures [u[0]] + (u[1..] + c) == u + c
  {
    assert u == [u[0]] + u[1..];
  }

  /** A walk that starts with a chain reads that chain first and then goes on from its end. */
  lemma {:induction false} ChainThenScan(b: seq<byte>, start: nat, u: seq<Section>)
    requires |b| % 8 == 0 && Chain(b, start, u)
    ensures ChainEnd(start, u) % 8 == 0
    ensures var rest := ScanFrom(b, ChainEnd(start, u));
      ScanFrom(b, start) == Scan(u + rest.sections, rest.error)
    decreases |u|
  {
    ChainEndAligned(b, start, u);
    if |u| > 0 {
      var s := u[0];
      var next := NextSection(s.offset, s.length);
      ScanFromSection(b, s);
      ChainThenScan(b, next, u[1..]);
      var rest := ScanFrom(b, ChainEnd(next, u[1..]));
      assert ChainEnd(start, u) == ChainEnd(next, u[1..]);
      assert ScanFrom(b, next) == Scan(u[1..] + rest.sections, rest.error);
      ConsAppend(u, rest.sections);
    } else {
      assert u + ScanFrom(b, start).sections == ScanFrom(b, start).sections;
    }
  }

  /** A chain extended by the section stored where it ends is a chain one longer. */
  lemma {:induction false} ChainSnoc(b: seq<byte>, start: nat, u: seq<Section>, s: Section)
    requires Chain(b, start, u) && s.offset == ChainEnd(start, u) && SectionAt(b, s)
    ensures Chain(b, start, u + [s])
    ensures ChainEnd(start, u + [s]) == NextSection(s.offset, s.length)
    decreases |u|
  {
    if |u| == 0 {
      assert u + [s] == [s];
    } else {
      var next := NextSection(u[0].offset, u[0].length);
      ChainSnoc(b, next, u[1..], s);
      assert (u + [s])[1..] == u[1..] + [s];
    }
  }

  /** Every prefix of a chain is a chain. */
  lemma {:induction false} ChainPrefix(b: seq<byte>, start: nat, t: seq<Section>, k: nat)
    requires Chain(b, start, t) && k <= |t|
    ensures Chain(b, start, t[..k])
    decreases k
  {
    if k > 0 {
      ChainPrefix(b, NextSection(t[0].offset, t[0].length), t[1..], k - 1);
      assert t[..k][1..] == t[1..][..k - 1];
    }
  }

  /** A prefix of the parsed table is a chain from offset 0, and the parse is that prefix
      followed by the walk from where it ends. */
  lemma ParsedPrefix(b: seq<byte>, done: seq<Section>)
    requires |b| % 8 == 0 && done <= ParseImage(b).sections
    ensures Chain(b, 0, done) && ChainEnd(0, done) % 8 == 0
    ensures var rest := ScanFrom(b, ChainEnd(0, done));
      ParseImage(b) == Scan(done + rest.sections, rest.error)
  {
    var t := ParseImage(b).sections;
    ScanFromChain(b, 0);
    ChainPrefix(b, 0, t, |done|);
    assert t[..|done|] == done;
    ChainThenScan(b, 0, done);
  }

  /** The parse succeeds with table t exactly when t is the section table of b. */
  lemma ParseCharacterized(b: seq<byte>, t: seq<Section>)
    requires |b| % 8 == 0
    ensures ParseImage(b) == Scan(t, None) <==> IsTable(b, t)
  {
    ScanFromChain(b, 0);
    ScanFromStop(b, 0);
    if IsTable(b, t) {
      ChainThenScan(b, 0, t);
      assert t + [] == t;
    }
  }

  /** The walk from start reads only bytes at or after start. */
  lemma {:induction false} ScanFromLocal(b: seq<byte>, b': seq<byte>, start: nat)
    requires |b| == |b'| && |b| % 8 == 0 && start % 8 == 0
    requires forall k :: start <= k < |b| ==> b[k] == b'[k]
    ensures ScanFrom(b, start) == ScanFrom(b', start)
    decreases |b| - start
  {
    if start < |b| {
      assert ReadBE32(b, start) == ReadBE32(b', start) && ReadBE32(b, start + 4) == ReadBE32(b', start + 4);
      assert RawFilename(b, start) == RawFilename(b', start);
      var next := NextSection(start, ReadBE32(b, start + 4));
      ScanFromLocal(b, b', next);
    }
  }

  /** Every section of a chain is stored in the image at or after the chain's start, and is
      followed by its successor. */
  lemma {:induction false} ChainMember(b: seq<byte>, start: nat, t: seq<Section>, j: nat)
    requires Chain(b, start, t) && j < |t|
    ensures SectionAt(b, t[j]) && start <= t[j].offset
    ensures j + 1 < |t| ==> t[j + 1].offset == NextSection(t[j].offset, t[j].length)
    decreases j
  {
    if j > 0 {
      ChainMember(b, NextSection(t[0].offset, t[0].length), t[1..], j - 1);
      assert t[1..][j - 1] == t[j];
      if j + 1 < |t| { assert t[1..][j] == t[j + 1]; }
    } else if |t| > 1 {
      assert t[1..][0] == t[1];
    }
  }

  /** Every section of a chain starts after all sections before it. */
  lemma {:induction false} ChainAscending(b: seq<byte>, start: nat, t: seq<Section>, j: nat)
    requires Chain(b, start, t) && j < |t|
    ensures forall i :: 0 <= i < j ==> t[i].offset < t[j].offset
    decreases j
  {
    if j > 0 {
      var next := NextSection(t[0].offset, t[0].length);
      assert Chain(b, next, t[1..]);
      ChainAscending(b, next, t[1..], j - 1);
      ChainMember(b, next, t[1..], j - 1);
      assert t[1..][j - 1] == t[j];
      forall i | 0 <= i < j ensures t[i].offset < t[j].offset {
        if i > 0 { assert t[1..][i - 1] == t[i]; }
      }
    }
  }

  /** A proper prefix of a chain ends where the next section of the chain starts. */
  lemma {:induction false} ChainEndPrefix(b: seq<byte>, start: nat, t: seq<Section>, j: nat)
    requires Chain(b, start, t) && j < |t|
    ensures ChainEnd(start, t[..j]) == t[j].offset
    decreases j
  {
    if j > 0 {
      var next := NextSection(t[0].offset, t[0].length);
      ChainEndPrefix(b, next, t[1..], j - 1);
      assert t[..j][1..] == t[1..][..j - 1];
      assert t[1..][j - 1] == t[j];
    }
  }

  /** A parsed table lists sections in strictly ascending offset order, the first at offset 0
      and each one's successor at the next 8-byte boundary after its body. */
  lemma ParsedTableAscending(b: seq<byte>, i: nat, j: nat)
    requires |b| % 8 == 0 && ParseImage(b).error.None?
    requires i < j < |ParseImage(b).sections|
    ensures var t := ParseImage(b).sections;
      && t[0].offset == 0 && t[i].offset < t[j].offset && t[j].offset + 8 <= |b|
      && (j == i + 1 ==> t[j].offset == NextSection(t[i].offset, t[i].length))
  {
    ScanFromChain(b, 0);
    ChainAscending(b, 0, ParseImage(b).sections, j);
    ChainMember(b, 0, ParseImage(b).sections, j);
    ChainMember(b, 0, ParseImage(b).sections, i);
    ChainMember(b, 0, ParseImage(b).sections, 0);
  }

  // ---------------------------------------------------------------------------------------
  // Lookup by name (find_file)

  /** What find_file returns: header offset and length of the section (-1, -1 on a miss),
      whether it is the final entry, and where the next live section starts. */
  datatype Location = Location(offset: int, length: int, isLast: bool, nextOffset: int)

  /** find_file reads its loop variable after the loop, which is unbound when the table is empty. */
  datatype LookupError = EmptyTable

  /** The index of the first section from i on named name, or |t| when there is none. */
  function IndexOf(t: seq<Section>, name: seq<byte>, i: nat): (k: nat)
    requires i <= |t|
    ensures i <= k <= |t|
    ensures k < |t| ==> t[k].filename == name
    ensures forall m :: i <= m < k ==> t[m].filename != name
    decreases |t| - i
  {
    if i == |t| then i
    else if t[i].filename == name then i
    else IndexOf(t, name, i + 1)
  }

  /** The index of the first section from i on that is not a pad section, or |t|. */
  function NextLiveIndex(t: seq<Section>, i: nat): (k: nat)
    requires i <= |t|
    ensures i <= k <= |t|
    ensures k < |t| ==> t[k].magic != PadMagic
    ensures forall m :: i <= m < k ==> t[m].magic == PadMagic
    decreases |t| - i
  {
    if i == |t| then i
    else if t[i].magic != PadMagic then i
    else NextLiveIndex(t, i + 1)
  }

  /** The start of the next live section after index i, or the start of the final erase
      sector (never the true image end) when only pad sections follow. */
  function NextLiveOffset(t: seq<Section>, i: nat, imageSize: nat): int
    requires i <= |t|
  {
    var k := NextLiveIndex(t, i);
    if k < |t| then t[k].offset else imageSize - EraseAlignSize
  }

  /** find_file: the first section named name, whatever its magic. */
  function Locate(t: seq<Section>, name: seq<byte>, imageSize: nat): Result<Location, LookupError> {
    if |t| == 0 then Err(EmptyTable)
    else
      var i := IndexOf(t, name, 0);
      if i < |t| then
        Ok(Location(t[i].offset, t[i].length, i == |t| - 1, NextLiveOffset(t, i + 1, imageSize)))
      else
        Ok(Location(-1, -1, false, imageSize - EraseAlignSize))
  }

  /** A miss: no section carries the name. */
  lemma LocateMiss(t: seq<Section>, name: seq<byte>, imageSize: nat)
    requires |t| > 0
    requires forall j :: 0 <= j < |t| ==> t[j].filename != name
    ensures Locate(t, name, imageSize) == Ok(Location(-1, -1, false, imageSize - EraseAlignSize))
  {
  }

  /** A hit is the first section with that name, of any kind; is_last holds exactly when it
      is the final entry; next_offset is the first later non-pad section, or the start of
      the scratch sector when only pad sections follow. */
  lemma LocateHit(t: seq<Section>, name: seq<byte>, imageSize: nat, j: nat)
    requires j < |t| && t[j].filename == name
    requires forall m :: 0 <= m < j ==> t[m].filename != name
    ensures Locate(t, name, imageSize).Ok?
    ensures var r := Locate(t, name, imageSize).value;
      r.offset == t[j].offset && r.length == t[j].length && (r.isLast <==> j == |t| - 1)
    ensures (forall m :: j < m < |t| ==> t[m].magic == PadMagic) ==>
      Locate(t, name, imageSize).value.nextOffset == imageSize - EraseAlignSize
    ensures forall n :: j < n < |t| && t[n].magic != PadMagic && LaterPads(t, j, n) ==>
      Locate(t, name, imageSize).value.nextOffset == t[n].offset
  {
    assert IndexOf(t, name, 0) == j;
    var k := NextLiveIndex(t, j + 1);
    forall n | j < n < |t| && t[n].magic != PadMagic && LaterPads(t, j, n)
      ensures k == n
    {
    }
  }

  /** Every section strictly between indices j and n is a pad section. */
  ghost predicate LaterPads(t: seq<Section>, j: nat, n: nat) {
    forall m :: j < m < n && m < |t| ==> t[m].magic == PadMagic
  }
}
