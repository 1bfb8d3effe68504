# Raspberry Pi EEPROM tools, modelled in Dafny

This project models four pieces of a Raspberry Pi reverse-engineering toolbox and proves
what they promise.

- **The bootloader EEPROM image editor.** This is class `BootloaderImage` of
  `reversing/extract.py`. It holds a 512 KiB or 2 MiB flash image as one mutable byte buffer.
  - It walks the image into a table of sections. Each section has an 8-byte big-endian header
    (magic, length), and the next one starts at the following 8-byte boundary.
  - It finds a section by name.
  - It rewrites a file section in place: the length field, the payload, 0xFF erase padding,
    and an optional pad section.
  - It reads a payload back.

  Modules: `Sections` (constants, names, the table walk as a function, the lookup by name);
  `BootImage` (the class, its methods over an `array<byte>`, and the update checks and writes
  as functions); `UpdateProofs` (what an update leaves in the image, byte by byte and as a
  re-parse reads it); `UpdateFindings` (two defects and their corrections). `Bytes` holds
  big-endian words and overwrites. `Utf8` holds the strict UTF-8 check of `decode('utf-8')`.
- **The EEPROM compressor.** This is `compress_data` and `reconstruct` of
  `reversing/rpi-eeprom-compress/compress.c`.
  - A dynamic program over `best[]` picks, for every prefix of the input, the cheapest parse
    into literals (9 bits) and back-references (17 bits; 2 to 256 bytes, at most 256 back).
  - `reconstruct` writes the winning parse backwards. A command byte comes before each group
    of up to 8 tokens.

  Module `Compress`. The trie of the match finder is replaced by a window search
  (`Compress.Nearest`).
- **The decompressor.** This is the decode loop of `reversing/rpi-eeprom-compress/uncompress.c`:
  command bits, least significant first; literals; back-reference copies out of a 256-byte
  ring buffer; end-of-input statuses. Module `Uncompress`.

  `LzFormat` defines the token stream both sides share. `LzRoundTrip` proves three things:
  decoding what the compressor writes gives back the input; its size is the table's cost
  rounded up to bytes; no other parse is cheaper.
- **The hexdump formatter.** This is class `hexdump` of `reversing/resets.py`: 16 bytes per
  line, an offset column, two hex columns and a text column, runs of equal lines shown as one
  `*`, and the end offset last.
  - Module `HexLines` defines the lines and the rows.
  - `HexUndump` reads a dump back and proves it loses nothing.
  - `Resets` holds the class, with its iteration, `__str__` and `__repr__`.

## Model

| member | source | states |
|---|---|---|
| Bytes.ReadWriteBE32 | reversing/extract.py:72 | A 32-bit value packed big-endian reads back as the same value. |
| Bytes.OverwriteSpec | reversing/extract.py:138-140 | `pack_into` at `at` sets bytes `[at, at + len(w))` to `w` and keeps every other byte. |
| Bytes.OverwriteConcat | reversing/extract.py:159-162 | Two adjacent packs equal one pack of the joined bytes. |
| Sections.ValidImageSizeAligned | reversing/extract.py:6-19 | Both valid image sizes are whole 4096-byte erase sectors, hence multiples of 8. |
| Sections.MagicFamily | reversing/extract.py:8-11 | MAGIC, PAD_MAGIC and FILE_MAGIC pass the mask test `& 0xfffff00f == MAGIC`. The end markers 0 and 0xffffffff fail it. |
| Sections.MagicMatches | reversing/extract.py:75 | The mask test of parse, `magic & 0xfffff00f == MAGIC`; MagicFamily states which magics pass it. |
| Sections.AlignUp8 | reversing/extract.py:88 | `(x + 7) & ~7` is a multiple of 8, at least x, and less than x + 8. |
| Sections.NextSection | reversing/extract.py:87-88 | The successor of a section starts aligned, after its 8 header bytes and its body, and less than 8 bytes past that. |
| Sections.DecimalRoundTrip | reversing/extract.py:83 | The digits of `f"{offset}"` read back as offset. |
| Sections.DecimalDigits | reversing/extract.py:83 | `f"{offset}"` is a non-empty string of ASCII digits. |
| Sections.SyntheticNamesDistinct | reversing/extract.py:83 | Different offsets give different `"<offset>.bin"` names. |
| Sections.RemoveNulsShrinks | reversing/extract.py:81 | `replace('\0', '')` leaves no NUL and never lengthens. |
| Sections.RemoveNulsKeeps | reversing/extract.py:81 | `replace('\0', '')` keeps every non-NUL byte as often as it occurs. |
| Sections.RemoveNulsConcat | reversing/extract.py:81 | `replace('\0', '')` acts wherever a NUL stands: on a concatenation it is the concatenation of its action on each part, so NULs inside a name go as well as trailing ones. |
| Sections.RemoveNulsFixed | reversing/extract.py:81 | A name without a NUL is unchanged, so removing NULs a second time changes nothing. |
| Sections.SectionNameSpec | reversing/extract.py:78-83 | A file section is named by its 12 name bytes with every NUL removed, and fails exactly when they are not UTF-8. Every other section, pad sections included, is `"<offset>.bin"`. |
| Sections.SectionName | reversing/extract.py:78-83 | The name parse gives a section: the decoded 12 name bytes without NULs for a file section, `"<offset>.bin"` otherwise, an error when the bytes do not decode. SectionNameSpec states this. |
| Utf8.LeadLength | reversing/extract.py:81 | A well-formed UTF-8 sequence is 1 to 4 bytes and lies within the input. |
| Utf8.AsciiValid | reversing/extract.py:81 | ASCII names always decode. |
| Utf8.Valid | reversing/extract.py:81 | `decode('utf-8')` succeeds: the bytes split into the well-formed sequences of table 3-7 of the Unicode Standard. |
| Utf8.RejectsMalformed | reversing/extract.py:81 | For every input that decodes: it does not start with a continuation byte or end inside a sequence; no byte is 0xC0, 0xC1 or 0xF5 and above; after 0xE0 and 0xF0 no overlong second byte, after 0xED no surrogate one (0xA0 to 0xBF), after 0xF4 none past U+10FFFF. |
| Utf8.ValidConcat | reversing/extract.py:81 | Two byte strings that decode still decode when joined. |
| Sections.ScanFrom | reversing/extract.py:69-88 | The loop of parse from a given offset: the sections it appends and the error that stops it, if any. ScanFromChain, ScanFromStop and ParseCharacterized state what it reads. |
| Sections.ParseImage | reversing/extract.py:65-88 | parse from offset 0 over the whole image. |
| Sections.ScanFromChain | reversing/extract.py:69-88 | The walk reads a chain: each section is stored at its offset, and each one's successor is at the next 8-byte boundary after its body. |
| Sections.ScanFromStop | reversing/extract.py:71-76 | The walk stops cleanly only at the image end or at magic 0/0xffffffff. It raises only at a foreign magic (Corrupted, with that offset and magic) or at an undecodable file name. |
| Sections.ParseCharacterized | reversing/extract.py:65-88 | The parse succeeds with table t if and only if t is a chain from offset 0 that ends where the table ends. |
| Sections.ParsedTableAscending | reversing/extract.py:69-88 | A parsed table starts at offset 0 and is strictly ascending in offset, inside the image, each successor at `(offset + 8 + length + 7) & ~7`. |
| Sections.ScanFromLocal | reversing/extract.py:69-88 | The walk from an offset reads no byte before it. |
| Sections.IndexOf | reversing/extract.py:100-107 | The first index whose name matches, whatever its magic; no earlier entry matches. |
| Sections.NextLiveIndex | reversing/extract.py:109-116 | The first later index that is not a pad section; every entry skipped is a pad section. |
| Sections.Locate | reversing/extract.py:90-119 | The tuple find_file returns, or an error for an empty table. LocateHit and LocateMiss state it. |
| Sections.LocateMiss | reversing/extract.py:95-119 | A name no section carries gives offset -1, length -1, not last, and next_offset `image_size - 4096`. |
| Sections.LocateHit | reversing/extract.py:95-119 | A hit gives the first matching section's offset and length. `is_last` holds exactly when it is the final entry. next_offset is the first later non-pad section, or `image_size - 4096` when only pad sections follow. |
| BootImage.SliceIndex | reversing/extract.py:204 | A Python slice index, clamped to [0, n]; an in-range index is kept. |
| BootImage.PySlice | reversing/extract.py:204 | Python slicing: an in-range slice is the sub-sequence; a reversed one is empty. |
| BootImage.UpdateCheck | reversing/extract.py:121-135 | The three checks of update, in order, each with its error; Update and CheckedWritesFit state what passing them means. |
| BootImage.PayloadWritten | reversing/extract.py:137-149 | The image after the length field, the payload and the 0xFF run to the boundary; PayloadWrittenBytes states it byte by byte. |
| BootImage.GapBytes | reversing/extract.py:156-168 | What update writes into the gap: a pad header and `gap - 8` bytes of 0xFF when the gap is over the minimum and the slot is not last, else `gap` bytes of 0xFF. The result is as long as the gap. |
| BootImage.Rewritten | reversing/extract.py:137-168 | The image after all writes of update, for a given minimum framed gap. |
| BootImage.UpdatedImage | reversing/extract.py:137-168 | Rewritten with the source's minimum framed gap, 9 bytes (`pad_bytes > 8`). |
| BootImage.FileBytes | reversing/extract.py:201-205 | get_file over a table and image: the clamped slice after the located header. TableGetFile and RewrittenGetFile state what it returns. |
| BootImage.BootloaderImage.constructor | reversing/extract.py:48-59 | The image holds the given bytes and an empty section table. |
| BootImage.BootloaderImage.Open | reversing/extract.py:43-63 | A size other than 512 KiB or 2 MiB is refused with that size. Otherwise the result is the image with the parsed table, or the parse's error. |
| BootImage.BootloaderImage.Parse | reversing/extract.py:65-88 | Appends exactly the walk's sections to the table (never clearing it) and reports the walk's error. |
| BootImage.ParseEndsAt | reversing/extract.py:73-74 | Stopping at an end marker or at the image end, with the chain read so far, is the whole parse. |
| BootImage.ParseCorruptedAt | reversing/extract.py:75-76 | A foreign magic after the chain read so far makes the parse fail with Corrupted at that offset. |
| BootImage.ParseBadNameAt | reversing/extract.py:78-81 | An undecodable file name after the chain read so far makes the parse fail with that error. |
| BootImage.BootloaderImage.FindFile | reversing/extract.py:90-119 | Returns Locate of the table: the first match, is_last, and the next live section. An empty table is an error, as the unbound loop variable is in the source. |
| BootImage.BootloaderImage.PackU32 | reversing/extract.py:138 | The 4 bytes at `at` become the big-endian value; nothing else changes. |
| BootImage.BootloaderImage.PackBytes | reversing/extract.py:139-140 | The bytes from `at` become the payload; nothing else changes. |
| BootImage.BootloaderImage.Update | reversing/extract.py:121-168 | The checks, in the source's order: past the image end, not found, overflow of the slot. Each failure writes no byte. On success the image is UpdatedImage: new length field, payload, 0xFF to the boundary, then the gap. |
| BootImage.CheckedWritesFit | reversing/extract.py:128-135 | When the checks pass, every write of update lies inside the image. |
| BootImage.BootloaderImage.Rewrite | reversing/extract.py:137-168 | The writes after the checks produce UpdatedImage of the old bytes. |
| BootImage.BootloaderImage.WritePayload | reversing/extract.py:137-149 | Writes the length `len + 16` and the payload, erases to the next 8-byte boundary, and returns that boundary. |
| BootImage.BootloaderImage.EraseToBoundary | reversing/extract.py:144-149 | Sets 0xFF from start to the next 8-byte boundary and returns that boundary. |
| BootImage.BootloaderImage.FillGap | reversing/extract.py:156-168 | A gap over 8 bytes before a section that is not last becomes a pad header and 0xFF filler. Any other positive gap becomes 0xFF. |
| BootImage.BootloaderImage.WritePadSection | reversing/extract.py:157-168 | Writes PAD_MAGIC, then `n`, then `n` bytes of 0xFF. |
| BootImage.BootloaderImage.FillErased | reversing/extract.py:165-168 | Sets `n` bytes from `at` to 0xFF; nothing else changes. |
| BootImage.BootloaderImage.UpdateFile | reversing/extract.py:178-186 | Sources over 4076 bytes are refused before any write; otherwise it behaves as Update. |
| BootImage.BootloaderImage.GetFile | reversing/extract.py:201-205 | Returns the slice `[hdr + 24, hdr + 24 + length - 16)`, clamped as Python slices are. A miss gives the empty slice `[23:6]`. |
| UpdateProofs.PayloadWrittenBytes | reversing/extract.py:137-149 | After the payload writes: the magic, name and extra header bytes are kept, the length field holds `len + 16`, the payload sits at hdr + 24, 0xFF runs to the boundary, and every later byte is kept. |
| UpdateProofs.GapFilledFrame | reversing/extract.py:156-168 | The gap writes change nothing outside `[pad_start, next_offset)`. |
| UpdateProofs.GapFilledContent | reversing/extract.py:156-168 | Inside the gap: a pad header with length `gap - 8` and 0xFF filler when framed, otherwise 0xFF throughout. |
| UpdateProofs.RewrittenBytes | reversing/extract.py:137-168 | After an update whose payload fits its slot, every byte before hdr + 4 and every byte from next_offset on is unchanged. |
| UpdateProofs.RewrittenRun | reversing/extract.py:137-168 | From the payload start to next_offset the updated image holds the payload, 0xFF to the boundary and the gap bytes, whatever was there before. |
| UpdateProofs.RewrittenTwice | reversing/extract.py:121-168 | Writing the same payload into the same slot a second time changes no byte. |
| UpdateProofs.RewrittenSameSlot | reversing/extract.py:137-168 | The writes depend on the slot's offset, is_last and next_offset, not on its old length. |
| UpdateProofs.RewrittenParse | reversing/extract.py:65-168 | Re-parsing the updated image gives: the sections before the slot unchanged, the slot with its new length, then what the gap holds, then the old table from the next live section on. |
| UpdateProofs.TableGetFile | reversing/extract.py:201-205 | get_file returns a payload that is stored after the header of the first section of that name with the matching length. |
| UpdateProofs.RewrittenGetFile | reversing/extract.py:121-205 | After an update whose payload fits its slot, get_file on the re-parsed image returns exactly the new payload. |
| UpdateFindings.GuardAdmitsOverrun | reversing/extract.py:126-135 | As written, the checks pass a 12-byte payload for an 8-byte slot whose payload would end at offset 36, past the next header at 32. |
| UpdateFindings.OverrunClobbersNext | reversing/extract.py:137-140 | When the payload runs 4 or more bytes past next_offset, the next section's magic word becomes payload bytes. |
| UpdateFindings.FixedRefusesOverrun | reversing/extract.py:126-135 | The corrected check refuses that update with Overflow(36, 32). |
| UpdateFindings.FixedCheckStricter | reversing/extract.py:126-135 | Whatever the corrected check passes, the check as written passes. |
| UpdateFindings.FixedCheckHoldsSlot | reversing/extract.py:126-135 | When the corrected check passes on a parsed table, the payload stays inside its slot and every write inside the image. |
| UpdateFindings.EightByteGapEndsWalk | reversing/extract.py:156-162 | As written, an 8-byte gap before a section that is not last is erased. The walk then stops right after the rewritten section. |
| UpdateFindings.EightByteGapSlot | reversing/extract.py:125-135 | When the checks pass and the payload leaves an 8-byte gap before a live section, the payload fits its slot and next_offset is that section. |
| UpdateFindings.EightByteGapReparse | reversing/extract.py:65-162 | As written, after such an update the re-parsed table ends with the renewed slot. find_file then reports the slot as last, with next_offset `image_size - 4096`. |
| UpdateFindings.NextMagicKept | reversing/extract.py:137-168 | An update whose payload fits leaves the magic word of the section at next_offset in place. |
| UpdateFindings.FinalGapErased | reversing/extract.py:156-168 | An update of the last section writes 0xFF over every word of its gap. |
| UpdateFindings.SecondUpdateErasesNext | reversing/extract.py:121-168 | As written, a second identical update after one that left an 8-byte gap passes its checks and erases the magic word of the section that followed the slot. |
| UpdateFindings.FixedDiffersOnlyAtEight | reversing/extract.py:156-162 | The corrected padding rule leaves the same image as the source for every gap other than 8 bytes. |
| UpdateFindings.FixedKeepsLaterSections | reversing/extract.py:151-162 | With the corrected rules, the re-parsed table is the old one with the slot renewed, the gap's pad section, and every later live section kept. |
| UpdateFindings.FixedUpdateRoundTrip | reversing/extract.py:121-205 | With the corrected check, update then re-parse then get_file returns the new payload. |
| UpdateFindings.FixedReparseSlot | reversing/extract.py:90-162 | With the corrected rules, find_file on the re-parsed image gives the slot's offset, its new length, not last, and the same next_offset. |
| UpdateFindings.RenewedLocate | reversing/extract.py:90-119 | find_file on a table whose slot was renewed and followed by pad sections and a live section gives that live section's offset. |
| UpdateFindings.FixedUpdateIdempotent | reversing/extract.py:121-168 | With the corrected rules, update, re-parse, then the same update again passes the checks and leaves exactly the same bytes. |
| Compress.Nearest | reversing/rpi-eeprom-compress/compress.c:93-121 | A match it reports is at distance 1 to 256 and lies before the position. Its bytes equal those `distance` bytes earlier. |
| Compress.NearestFinds | reversing/rpi-eeprom-compress/compress.c:93-121 | Whenever a match of that length exists at some distance up to e, the search finds one at distance at most e. |
| Compress.ChooseValid | reversing/rpi-eeprom-compress/compress.c:86-133 | A chosen entry is a literal costing `best[k-1] + 9`, or a back-reference of 2 to 256 bytes, distance at most 256, whose bytes repeat, costing `best[base] + 17`. |
| Compress.ChooseOptimal | reversing/rpi-eeprom-compress/compress.c:123-133 | No back-reference of a length considered is cheaper than the chosen entry. |
| Compress.TableConsistent | reversing/rpi-eeprom-compress/compress.c:81-157 | `best[0].cost == 0`, and every entry is a valid literal or back-reference with the cost its predecessor's cost implies. |
| Compress.TableCostBound | reversing/rpi-eeprom-compress/compress.c:86 | `best[n].cost <= 9n`: an all-literal parse bounds the cost. |
| Compress.ConsiderLength | reversing/rpi-eeprom-compress/compress.c:123-133 | Folds one candidate length into the running minimum as the window search does. |
| Compress.ChooseEntry | reversing/rpi-eeprom-compress/compress.c:86-150 | The entry for a prefix is Choose over all lengths up to `min(256, k)`. |
| Compress.Choose | reversing/rpi-eeprom-compress/compress.c:86-133 | `best[k]`: a literal, replaced by a back-reference of length 2 to the window only when strictly cheaper. ChooseValid and ChooseOptimal state it. |
| Compress.Table | reversing/rpi-eeprom-compress/compress.c:81-157 | `best[0..n]` as compress_data fills it; it has n + 1 entries. TableConsistent and TableOptimal state what it holds. |
| Compress.FillEntry | reversing/rpi-eeprom-compress/compress.c:85-156 | After step k, `best[0..k]` equals the table of the first k bytes. |
| Compress.CompressData | reversing/rpi-eeprom-compress/compress.c:68-167 | ENOMEM exactly when `len >= SIZE_MAX / 16 - 1`; otherwise `best` is the whole table. |
| Compress.TraceCost | reversing/rpi-eeprom-compress/compress.c:177-195 | The walk back from `best[k]` yields tokens whose total cost is `best[k].cost`, so the running cost ends at 0. |
| Compress.TraceExpands | reversing/rpi-eeprom-compress/compress.c:177-189 | The tokens of that walk decode back to the first k input bytes. |
| Compress.Trace | reversing/rpi-eeprom-compress/compress.c:177-194 | The tokens reconstruct walks back from `best[k]`, in input order. TraceCost and TraceExpands state them. |
| Compress.PutToken | reversing/rpi-eeprom-compress/compress.c:179-193 | Writes one token backwards: a literal byte, or `moff` then `mlen`, and the command byte when the cost reaches a multiple of 8. |
| Compress.WriteToken | reversing/rpi-eeprom-compress/compress.c:177-194 | One step of the backward walk keeps the suffix written equal to the serialisation of the tokens taken. |
| Compress.Reconstruct | reversing/rpi-eeprom-compress/compress.c:169-196 | The buffer is `(best[len].cost + 7) / 8` bytes, filled exactly with the serialised token stream. |
| LzFormat.CopyBack | reversing/rpi-eeprom-compress/uncompress.c:26-31 | A back-reference copy adds exactly its length to the output. |
| LzFormat.CopyBackKeeps | reversing/rpi-eeprom-compress/uncompress.c:26-31 | A copy keeps everything already output. |
| LzFormat.CopyBackIff | reversing/rpi-eeprom-compress/compress.c:113-121 | Copying l bytes from distance d, one at a time with overlap, reproduces the input exactly when those l bytes equal the bytes d back. |
| LzFormat.Expand | reversing/rpi-eeprom-compress/uncompress.c:18-38 | A token extends the output by its span and keeps what is there. |
| LzFormat.TokenBytes | reversing/rpi-eeprom-compress/compress.c:180-188 | A token's bytes plus its flag bit are its cost: 9 bits for a literal, 17 for a back-reference. |
| LzFormat.CostIsBytesAndFlags | reversing/rpi-eeprom-compress/compress.c:179-188 | A parse's cost is 8 bits per token byte plus one flag bit per token. |
| LzFormat.FlagsFitByte | reversing/rpi-eeprom-compress/compress.c:179-184 | The flags of a group of up to 8 tokens fit in a command byte. |
| LzFormat.Flags | reversing/rpi-eeprom-compress/compress.c:179-192 | The command byte of a group: bit i set exactly for a back-reference, first token in bit 0; under `2^|group|`. |
| LzFormat.Serialize | reversing/rpi-eeprom-compress/compress.c:177-194 | The stream reconstruct writes: per group of 8 tokens, its command byte and then its token bytes. SerializeSize and SerializeDecodes state it. |
| LzFormat.SerializeSize | reversing/rpi-eeprom-compress/compress.c:170-171 | The stream is the token bytes plus one command byte per group of 8: `(cost + 7) / 8` bytes. |
| LzRoundTrip.StreamDecodes | reversing/rpi-eeprom-compress/uncompress.c:13-44 | Decoding a serialised parse after some output appends exactly the parse's expansion and ends with status 0. |
| LzRoundTrip.SerializeDecodes | reversing/rpi-eeprom-compress/uncompress.c:13-44 | Decoding the stream of any valid parse gives its bytes, with status 0. Zero high bits of the last command byte read as literals at end of input. |
| LzRoundTrip.Chosen | reversing/rpi-eeprom-compress/compress.c:177-194 | The parse the compressor picks decodes to the input. |
| LzRoundTrip.CompressRoundTrip | reversing/rpi-eeprom-compress/compress.c:169-196 | Decompressing the compressor's output gives back the input, with status 0. |
| LzRoundTrip.CompressSize | reversing/rpi-eeprom-compress/compress.c:170-172 | The output is `(best[len].cost + 7) / 8` bytes. |
| LzRoundTrip.StepLiteral | reversing/rpi-eeprom-compress/compress.c:86 | `best[k].cost <= best[k-1].cost + 9`. |
| LzRoundTrip.StepRef | reversing/rpi-eeprom-compress/compress.c:123-133 | A repeat of l bytes at distance d, each at most 256, bounds `best[k].cost` by `best[k-l].cost + 17`. |
| LzRoundTrip.StepOptimal | reversing/rpi-eeprom-compress/compress.c:85-157 | No single last token of any valid parse undercuts the table's entry. |
| LzRoundTrip.TableOptimal | reversing/rpi-eeprom-compress/compress.c:85-157 | The table's cost of a prefix is at most the cost of every valid parse of it. |
| LzRoundTrip.CompressOptimal | reversing/rpi-eeprom-compress/compress.c:68-196 | No valid parse of the input is cheaper than the compressor's, nor serialises to fewer bytes. |
| LzRoundTrip.CompressMain | reversing/rpi-eeprom-compress/compress.c:214-232 | ENOMEM exactly for overlong input. Otherwise the output is the serialised chosen parse, and it decompresses to the input. |
| Uncompress.RingHolds | reversing/rpi-eeprom-compress/uncompress.c:11-12 | The ring holds each of the last 256 output bytes at its position modulo 256. |
| Uncompress.Decode | reversing/rpi-eeprom-compress/uncompress.c:13-44 | The output and end status of the decode loop on the whole input. |
| Uncompress.DecodeFrom | reversing/rpi-eeprom-compress/uncompress.c:14-17 | At a command byte: end of input is status 0, else the next 8 tokens follow. |
| Uncompress.DecodeGroup | reversing/rpi-eeprom-compress/uncompress.c:18-40 | One token per command bit, least significant first: a back-reference copy, or a literal; a missing byte inside a back-reference is Unexpected EOF. |
| Uncompress.Emit | reversing/rpi-eeprom-compress/uncompress.c:35-36 | Appends one byte to the output and writes it at the wrapping index. |
| Uncompress.SameSlot | reversing/rpi-eeprom-compress/uncompress.c:27 | `(uint8_t)(out_i - offset)` is the slot of the byte `offset` positions back. |
| Uncompress.RingRead | reversing/rpi-eeprom-compress/uncompress.c:27 | Reading slot `(uint8_t)(out_i - offset)` gives the output byte d back, where offset is d modulo 256. |
| Uncompress.CopyByte | reversing/rpi-eeprom-compress/uncompress.c:27-28 | One step of the copy appends the byte d back, and the ring stays in step. |
| Uncompress.CopyRef | reversing/rpi-eeprom-compress/uncompress.c:18-31 | A back-reference outputs `len + 1` bytes from distance `offset + 1` (256 when it wraps to 0), one at a time. |
| Uncompress.DecodeRef | reversing/rpi-eeprom-compress/uncompress.c:18-31 | A 1 bit reads offset and length, copies, and reports Unexpected EOF when either byte is missing. |
| Uncompress.DecodeLiteral | reversing/rpi-eeprom-compress/uncompress.c:32-38 | A 0 bit copies one input byte to the output, and ends with status 0 at end of input. |
| Uncompress.DecodeToken | reversing/rpi-eeprom-compress/uncompress.c:18-38 | One token follows the decoding function. |
| Uncompress.DecodeCommand | reversing/rpi-eeprom-compress/uncompress.c:16-40 | A command byte governs the next 8 tokens, least significant bit first. |
| Uncompress.Uncompress | reversing/rpi-eeprom-compress/uncompress.c:6-50 | The output and exit status are those of Decode: end of input at a command byte or literal gives status 0; inside a back-reference it gives "Unexpected EOF", status 1. |
| HexLines.HexDigit | reversing/resets.py:290-292 | A lowercase hex digit that reads back as its value. |
| HexLines.HexRoundTrip | reversing/resets.py:290-292 | `'{:x}'` digits read back as the number. |
| HexLines.HexWidth | reversing/resets.py:290 | n takes at most k hex digits exactly when `n < 16^k`. |
| HexLines.Hex8RoundTrip | reversing/resets.py:290-291 | `'{:08x}'` reads back as the offset. |
| HexLines.Hex8 | reversing/resets.py:290-291 | `'{:08x}'` is at least 8 characters. |
| HexLines.Hex2 | reversing/resets.py:292-293 | `'{:02x}'` of a byte is two lowercase hex digits that read back as the byte. |
| HexLines.HexJoin | reversing/resets.py:292-293 | `" ".join` of k two-digit bytes is `3k - 1` characters, or empty. |
| HexLines.HexJoinAt | reversing/resets.py:292-293 | Byte j's two digits sit at columns 3j and 3j + 1. |
| HexLines.PadRight | reversing/resets.py:290 | `'{:23}'` / `'{:16}'` pads to the width and never truncates. |
| HexLines.PadRightAt | reversing/resets.py:290 | Padding keeps the text and adds spaces after it. |
| HexLines.Printable | reversing/resets.py:294 | Bytes 32 to 126 show as themselves; every other byte shows as `.`. |
| HexLines.Text | reversing/resets.py:294 | The text column has one character per byte. |
| HexLines.Line | reversing/resets.py:290-295 | A row's line: `'{:08x}'` of its offset, then its columns. ParseLine reads it back. |
| HexLines.Columns | reversing/resets.py:290-295 | Two spaces, the first 8 bytes in a 23-wide column, two spaces, the rest in another, and the 16-wide text column between bars. |
| HexLines.Chunks | reversing/resets.py:288-289 | The buffer in rows of 16, the last one shorter: exactly `ceil(len/16)` rows. |
| HexLines.ChunkAt | reversing/resets.py:288-289 | Row k is `buf[16k : 16k + 16]`. |
| HexLines.ChunksFlatten | reversing/resets.py:288-289 | The rows put back together are the buffer; all rows are 16 bytes except the last, which is non-empty. |
| HexLines.LineNotStar | reversing/resets.py:296-298 | A formatted line is never `"*"`, so a line after a different row is always shown. |
| HexLines.RepeatStep | reversing/resets.py:296-300 | A row equal to the one before is remembered as `"*"`. It is shown exactly when the row before was not itself a repeat. |
| HexLines.Entry | reversing/resets.py:296-300 | What a row shows: its line when it differs from the row before, `*` for the first repeat, nothing for later repeats. |
| HexLines.Rows | reversing/resets.py:287-300 | The entries of the first n rows, in order. RowsAreRuns states them run by run. |
| HexLines.Dump | reversing/resets.py:286-301 | The lines `__iter__` yields: the rendered rows, then the end offset. DumpRoundTrip reads them back as the buffer. |
| HexLines.IterStep | reversing/resets.py:289-300 | The iteration's step over a row yields exactly the row's dump entry. |
| HexLines.RowsNext | reversing/resets.py:296-299 | Each row adds its entry, if any, to the rendered dump. |
| HexLines.SeenNext | reversing/resets.py:287-300 | The state carried by the loop (`last_bs`, `last_line`, lines so far) stays in step with the dump. |
| HexLines.RunEnds | reversing/resets.py:296-300 | A run of equal rows ends at the buffer end or at a different row. |
| HexLines.RowsAreRuns | reversing/resets.py:296-300 | The dump shows, run by run, each run's first line, then a single `*` when the run is longer than one row. |
| HexLines.RestoreRuns | reversing/resets.py:286-301 | Rebuilding bytes from the rows of each run gives back those runs' bytes. |
| HexLines.ShapedRestore | reversing/resets.py:286-301 | Rebuilding from the rows of any shaped row list and the end offset gives the bytes back. |
| HexLines.RowsRestore | reversing/resets.py:286-301 | The rows and the end offset determine the buffer. |
| HexUndump.ColumnStarts | reversing/resets.py:290-294 | A line's columns are two spaces, the two padded hex columns, then the text between bars. |
| HexUndump.ColumnsHex | reversing/resets.py:292-293 | Byte j of a row has its two hex digits at the byte's column. |
| HexUndump.ColumnsBlank | reversing/resets.py:292-293 | After the last byte, the next byte column is blank. |
| HexUndump.ReadColumns | reversing/resets.py:290-294 | Reading the hex columns back gives the row's bytes. |
| HexUndump.Hex8Digits | reversing/resets.py:290-291 | The offset column is all hex digits. |
| HexUndump.ParseLine | reversing/resets.py:289-294 | Every line of a row of at most 16 bytes parses back to its offset and bytes. |
| HexUndump.ParseRender | reversing/resets.py:289-297 | Every dump entry, a line or `"*"`, parses back to itself. |
| HexUndump.ParsedRendered | reversing/resets.py:286-300 | The rendered lines parse back to the rows. |
| HexUndump.RowsFit | reversing/resets.py:288-289 | Every row of a dump holds at most 16 bytes. |
| HexUndump.UndumpRows | reversing/resets.py:299-301 | Reading back the lines of rows followed by the end offset rebuilds from those rows. |
| HexUndump.DumpRoundTrip | reversing/resets.py:286-301 | Reading a dump back gives the buffer: the collapsed runs and the final offset lose nothing. |
| HexUndump.SplitJoin | reversing/resets.py:303-304 | Splitting `"\n".join(lines)` at newlines gives the lines back, when none holds a newline. |
| HexLines.JoinLines | reversing/resets.py:303-304 | `"\n".join(lines)`; SplitJoin splits it back. |
| HexUndump.DumpPlain | reversing/resets.py:289-301 | No line of a dump holds a newline. |
| HexUndump.StrRoundTrip | reversing/resets.py:303-304 | The joined dump splits back into its lines, and reads back as the buffer. |
| Resets.HexDump.constructor | reversing/resets.py:282-284 | Keeps the buffer and the offset. |
| Resets.HexDump.Visit | reversing/resets.py:289-300 | The loop body over one row keeps the loop's state in step with the dump. |
| Resets.HexDump.RowLines | reversing/resets.py:287-300 | The loop yields exactly the rendered rows of the dump, in order. |
| Resets.HexDump.Iter | reversing/resets.py:286-301 | Yields exactly the dump's lines; they read back as the buffer. |
| Resets.HexDump.Str | reversing/resets.py:303-304 | The lines joined by newlines; split and read back, they give the buffer. |
| Resets.HexDump.Repr | reversing/resets.py:306-307 | The same string as `__str__`. |

## Left out

- File, standard input and output plumbing is not modelled: `write`, `read`, the file writes of `extract_files` and `main` in `extract.py`; the `fgetc`/`fputc` streams of `uncompress.c`; `read_data`, the `fwrite` loop and `main`'s I/O in `compress.c`. The input and output are byte sequences.
- Read and write errors of the decompressor ("Read Error", "Write Error") come from the streams, and are left out with them.
- `exit_error` for an unreadable file, the `debug` logging and `ImageSection`'s debug print have no behaviour to state.
- `update_key` is not modelled: it calls `pemtobin`, which is not defined in `extract.py`. It then behaves as Update on the bytes it produces.
- `extract_files` only calls GetFile for each section and writes files; only GetFile is modelled.
- Compress.Nearest: the trie of `compress_data`, with node splitting, `calloc` and `free_nodes`, is replaced by a search for the nearest earlier match of each length within 256 bytes. Costs, sizes and the round trip do not depend on the trie. Among back-references of equal cost, the one the trie keeps may differ from the window search's, so the exact bytes chosen may differ.
- A failed `malloc`/`calloc` in `compress_data` and `reconstruct` is not modelled; only the size guard's ENOMEM is.
- LzRoundTrip.CompressMain: `main` passes a NULL `best` on to `reconstruct` after ENOMEM. The model returns the error instead.
- Uncompress.Uncompress: requires that no back-reference reaches before the first output byte. Such a stream reads an uninitialised `outbuf` slot, which C leaves undefined; Decode reports it as Undefined.
- UpdateProofs.RewrittenGetFile: assumes NamesClear: no file section before the slot has name bytes past the slot's magic word. A parsed table breaks that only when the file section directly before the slot has length field 0. Its 12 name bytes then cover the slot's magic word, the slot's length field and 4 more bytes, and update rewrites that length field. With length 1 to 8 the slot starts 16 bytes after that section, so its name ends at the end of the slot's magic word, which update keeps.
- UpdateProofs.RewrittenParse: assumes NamesClear, for the same reason.
- UpdateFindings.FixedKeepsLaterSections: assumes NamesClear, for the same reason.
- UpdateFindings.FixedUpdateRoundTrip: assumes NamesClear, for the same reason.
- UpdateFindings.FixedUpdateIdempotent: assumes NamesClear, for the same reason, and is proved when a live section follows the slot. When none does, the slot is last or only pad sections follow it.
- UpdateFindings.SecondUpdateErasesNext: assumes NamesClear, and that the next section lies before the last 4096 bytes of the image.
- BootImage.BootloaderImage.Update: follows the source as written. The round trip through get_file is proved when the payload fits its slot, which the check as written does not ensure (see Findings).
- Section names are kept as their UTF-8 bytes. Comparing them equals comparing the decoded strings, and removing NUL bytes equals removing NUL code points.
- Negative hexdump offsets, which `'{:08x}'` shows with a minus sign, are left out: the offset is a natural number.
- The hexdump iteration is a generator; the model returns all its lines at once, in the same order.
- The copy of `hexdump` in `pcie/hacks.py` is the same code and is not modelled separately. The rest of `resets.py` is register access and is not part of this model.

## Findings

| source | as written | input that shows it | evidently intended | confidence | as-written member | corrected member |
|---|---|---|---|---|---|---|
| reversing/extract.py:126-135 | The slot checks count `len + 20` bytes after the header, but the payload starts at `hdr + 24`, so it may end up to 4 bytes past `next_offset`. | File section at 0 with length 24, next section at 32; a 12-byte update passes the checks and writes up to offset 36. That overwrites the next section's magic. | Count `len + 24`: magic, length, 12-byte name, 4 bytes, then the payload. | not executed | UpdateFindings.GuardAdmitsOverrun, UpdateFindings.OverrunClobbersNext | UpdateFindings.FixedRefusesOverrun, UpdateFindings.FixedCheckHoldsSlot, UpdateFindings.FixedUpdateRoundTrip |
| reversing/extract.py:156-162 | A gap of exactly 8 bytes before a section that is not last gets no pad header (`pad_bytes > 8`); it is filled with 0xFF. | An update that leaves 8 bytes between the aligned payload end and the next live section. The re-parse reads 0xffffffff there, stops, and loses every later section. The same update again then takes the slot for the last one and writes 0xFF up to the last 4096 bytes, over the next section's header. | Frame every gap that can hold a header (`>= 8`), as the comment says, giving a pad section of length 0. | not executed | UpdateFindings.EightByteGapEndsWalk, UpdateFindings.SecondUpdateErasesNext | UpdateFindings.FixedKeepsLaterSections, UpdateFindings.FixedDiffersOnlyAtEight, UpdateFindings.FixedUpdateIdempotent |
