# ADL instrument extractor and DAC palette converter, in Dafny

This project models the two data-conversion tools of the repository and proves what they promise.

**`Adl2Ins` (adl2ins.dfy)** models `TOOLS/adl2ins.py`. A Westwood ADL music file (Dune II / Kyrandia 1) starts with an index block:

- 120 song-index bytes;
- 250 little-endian 16-bit track pointers;
- 250 little-endian 16-bit instrument pointers.

The instrument pointers are relative to the end of the song index.

The extractor walks the 250 instrument pointer slots in order:

- It stops at the first slot that lies past the end of the file.
- It skips the empty markers 0 and 0xFFFF.
- It skips pointers whose 11-byte record would run past the end.
- It skips offsets it has already listed.
- It numbers the instruments that remain 0, 1, 2, ….

Each listed 11-byte ADL record can be exported as a 12-byte HSC `.INS` record named `NN.INS`. The conversion is a fixed rearrangement of the bytes plus a zero finetune byte.

The module models the pieces as follows:

- The conversion is a method that fills a fresh 12-byte array, specified by the table-driven function `HscRecord`.
- The slot scan is a method with the source's `break`/`continue` loop, specified by the recursive function `Listing`.
- The properties of the listing are lemmas about `Listing`:
  - where each instrument comes from;
  - ids;
  - order;
  - de-duplication, in both directions;
  - where the scan stops;
  - a concrete one-instrument file.

**`Txt2Pal` (txt2pal.dfy)** models the conversion in `main` of `TOOLS/txt2pal.py`. The tool turns a DOSBox-X `DACPAL` text dump into a 768-byte VGA palette:

1. It lower-cases the text.
2. It finds every whole-word token `[0-3][0-9a-f]` ×3.
3. It refuses fewer than 256 tokens.
4. It keeps the first 256.
5. It writes each hex pair masked with `& 0x3F`.

`FindAll` models `re.findall` for this one pattern: it tries each position, and after a match it resumes at the match's end. It is proved equal to the reference definition `AllMatches`, which lists the match at every position. From that equality follow:

- every token found is a whole-word colour token of the text;
- every such token is found;
- matches never overlap.

The converter is a method with the source's nested loop. It is specified by the function `Palette`. Further lemmas prove:

- the byte layout;
- the 6-bit bound;
- that the mask changes nothing on a colour token;
- a round trip between colour tokens and channel triples.

**`Wrappers` (wrappers.dfy)** holds the `byte` type and the `Result` type used for the two fatal error paths (`ValueError`, `SystemExit`).

## Model

| member | source | states |
|---|---|---|
| Adl2Ins.TableLayout | TOOLS/adl2ins.py:38-45 | the track pointer table starts at 0x78, the instrument pointer table at 0x26C = 120 + 250·2, and the index block ends at 1120 |
| Adl2Ins.ReadLe16 | TOOLS/adl2ins.py:48-51 | the value is below 65536, and it is 0xFFFF whenever fewer than two bytes remain at the offset |
| Adl2Ins.ReadLe16Halves | TOOLS/adl2ins.py:51 | within bounds, the byte at the offset is the low half of the value and the next byte the high half |
| Adl2Ins.ReadLe16RoundTrip | TOOLS/adl2ins.py:48-51 | reading back the two little-endian bytes of any 16-bit value, wherever they are placed, gives the value |
| Adl2Ins.HscRecord | TOOLS/adl2ins.py:61-75 | the converted record has exactly 12 bytes and its byte 11 (finetune / slide) is 0 for every input; HSC byte k < 11 is ADL byte HscSourceField[k], the code's assignment order, and HscRecordMatchesDocumentedMapping ties it to the documented table |
| Adl2Ins.AdlToHscIns | TOOLS/adl2ins.py:54-77 | fails with InvalidLength exactly when the input is not 11 bytes; otherwise returns the 12-byte HSC record |
| Adl2Ins.HscRecordMatchesDocumentedMapping | TOOLS/adl2ins.py:19-32 | HSC byte AdlTargetField[i] is ADL byte i, for every row of the documented mapping, so the ADL record can be read back out of the HSC record |
| Adl2Ins.FieldTablesAreInverse | TOOLS/adl2ins.py:21-31 | the documented mapping and the assignments of the code are inverse permutations of positions 0..10: each ADL byte has exactly one HSC position |
| Adl2Ins.HscRecordOnto | TOOLS/adl2ins.py:61-75 | every 12-byte record whose byte 11 is 0 is the conversion of exactly one ADL record |
| Adl2Ins.HscRecordFixture | TOOLS/adl2ins.py:64-75 | the record 0,1,…,10 converts to 1,0,6,5,8,7,10,9,2,4,3,0 |
| Adl2Ins.IsSentinel | TOOLS/adl2ins.py:99 | a pointer is empty exactly when it is 0 or 0xFFFF; no contract of its own, ListingWellFormed states that no listed instrument has such a pointer |
| Adl2Ins.ReadPointer | TOOLS/adl2ins.py:94-113 | a slot is unreadable exactly when its two bytes lie past the end; a record slot resolves to 120 + its pointer, the pointer is not 0 or 0xFFFF, the 11 bytes fit, and the raw bytes are the file's bytes at that offset |
| Adl2Ins.ReadPointerResolves | TOOLS/adl2ins.py:94-106 | a slot holds a record at an offset if and only if it passes the bounds, sentinel and 11-byte tests with that offset |
| Adl2Ins.UnreadableIsFinal | TOOLS/adl2ins.py:94-96 | once a slot lies past the end of the buffer, every later slot does too, so the `break` skips only slots that would all be unreadable |
| Adl2Ins.PointerTable | TOOLS/adl2ins.py:93-106 | the 250 instrument pointer slots, each read by ReadPointer; no contract of its own, ReadPointer states what each entry is |
| Adl2Ins.Scan | TOOLS/adl2ins.py:93-130 | the selection, de-duplication and numbering of the loop as a recursion over the slots: stop at an unreadable slot, skip empty, out-of-range and already-seen entries, list the rest with the next id; its properties are ScanLength, ScanAt, ScanOrdered, ScanComplete and ScanSentinels |
| Adl2Ins.ScanLength | TOOLS/adl2ins.py:93-130 | the scan lists at most one instrument per remaining slot |
| Adl2Ins.ScanAt | TOOLS/adl2ins.py:108-130 | the k-th listed instrument has id nextId + k, comes from a later slot holding exactly its pointer, offset and bytes, and its offset was not already seen |
| Adl2Ins.ScanOrdered | TOOLS/adl2ins.py:93-111 | listed instruments come from strictly increasing slots and have pairwise distinct offsets |
| Adl2Ins.ScanComplete | TOOLS/adl2ins.py:93-111 | a record slot whose offset is unseen, with no unreadable slot before it, has its offset listed by it or by an earlier slot |
| Adl2Ins.ScanSentinels | TOOLS/adl2ins.py:99-100 | slots that all hold empty markers list nothing |
| Adl2Ins.Listing | TOOLS/adl2ins.py:90-130 | the instruments the loop lists for a buffer, from slot 0 with no seen offsets and id 0; ListInstruments is proved to compute it, and ListingWellFormed, ListingComplete and ListingFirstSlot characterise it |
| Adl2Ins.ListingWellFormed | TOOLS/adl2ins.py:90-130 | at most 250 instruments; each one's pointer is read from its slot, is not 0 or 0xFFFF, and gives offset 120 + pointer with its 11 bytes inside the file; it holds exactly those bytes; ids are 0, 1, 2, …; slots increase; offsets are distinct |
| Adl2Ins.ListingComplete | TOOLS/adl2ins.py:93-111 | every offset that some slot resolves to is listed, from that slot or an earlier one |
| Adl2Ins.ListingFirstSlot | TOOLS/adl2ins.py:108-111 | each listed instrument comes from the first slot resolving to its offset, so a later duplicate slot adds nothing |
| Adl2Ins.ListingStopsAtShortTable | TOOLS/adl2ins.py:94-96 | no instrument comes from a slot at or after the first one past the end, so a file too short for slot 0 (under 622 bytes) lists nothing |
| Adl2Ins.OneInstrumentScenario | TOOLS/adl2ins.py:90-130 | a zeroed index block whose slot 0 holds pointer 1000, followed by an 11-byte record, lists exactly that record as instrument 0 at offset 1120 |
| Adl2Ins.ListInstruments | TOOLS/adl2ins.py:87-130 | the loop lists exactly Listing(data); the count is its length; the seen set is exactly the set of listed offsets; with export on, the files are, in order, NN.INS with each instrument's HSC record; with export off, there are no files |
| Adl2Ins.DecimalRoundTrip | TOOLS/adl2ins.py:125 | the decimal digits of an id read back as the id |
| Adl2Ins.ZeroPad2 | TOOLS/adl2ins.py:125 | `{id:02d}` has at least two characters, all of them digits |
| Adl2Ins.InsFileNameRoundTrip | TOOLS/adl2ins.py:124-125 | the id can be read back from the digits in front of `.INS` |
| Adl2Ins.InsFileNameInjective | TOOLS/adl2ins.py:124-125 | different ids get different file names |
| Adl2Ins.ExportNamesDistinct | TOOLS/adl2ins.py:122-130 | no two listed instruments are exported to the same file |
| Txt2Pal.Lower | TOOLS/txt2pal.py:25 | lower-casing keeps the length, leaves no upper-case letter, changes no other character, and keeps word characters word characters, so no `\b` boundary moves |
| Txt2Pal.IsWordChar | TOOLS/txt2pal.py:25 | the `\w` of the pattern's `\b`, on ASCII; no contract of its own, MatchIsWordRun and Lower state how it bounds a match |
| Txt2Pal.MatchAt | TOOLS/txt2pal.py:25 | the pattern with both `\b`s matches at a position; no contract of its own, MatchIsWordRun and NoMatchInside state its properties |
| Txt2Pal.MatchIsWordRun | TOOLS/txt2pal.py:25 | a match is a whole run of word characters of length six |
| Txt2Pal.FindAll | TOOLS/txt2pal.py:25 | `re.findall` for the pattern, resuming after each match; no contract of its own, FindAllIsAllMatches ties it to the reference AllMatches and FindAllCharacterised states what it finds |
| Txt2Pal.NoMatchInside | TOOLS/txt2pal.py:25 | no match starts inside another match |
| Txt2Pal.NoMatchesBetween | TOOLS/txt2pal.py:25 | a stretch without match positions contributes no tokens |
| Txt2Pal.FindAllIsAllMatches | TOOLS/txt2pal.py:25 | resuming after each match finds exactly the matches at every position, in order |
| Txt2Pal.AllMatchesComplete | TOOLS/txt2pal.py:25 | every match at or after a position is among the matches from that position |
| Txt2Pal.AllMatchesSound | TOOLS/txt2pal.py:25 | everything listed is a colour token standing as a whole word at some later position of the text |
| Txt2Pal.FindAllCharacterised | TOOLS/txt2pal.py:25 | the tokens found are colour tokens that occur as whole words, and every whole-word colour token of the text is found |
| Txt2Pal.UpperCaseEntryFound | TOOLS/txt2pal.py:25 | six characters of the dump that lower-case to a colour token, with no word character around them, are found in lower case, so an entry written as `3F0A1B` counts |
| Txt2Pal.FindAllTokens | TOOLS/txt2pal.py:25 | every token found has the digit pattern |
| Txt2Pal.HexPairValue | TOOLS/txt2pal.py:34 | `int(pair, 16)` of two hex digits is below 0x100 |
| Txt2Pal.Mask6 | TOOLS/txt2pal.py:34 | `& 0x3F` yields a value below 64 |
| Txt2Pal.ChannelDigits | TOOLS/txt2pal.py:33-34 | the slices [0:2], [2:4] and [4:6] of a colour token are hex pairs |
| Txt2Pal.ChannelByte | TOOLS/txt2pal.py:33-34 | channel c of a token is the pair at [2c:2c+2] read as hex and masked, a value below 64 |
| Txt2Pal.ColorBytes | TOOLS/txt2pal.py:33-35 | each token gives exactly three bytes |
| Txt2Pal.PaletteStep | TOOLS/txt2pal.py:32-35 | writing one more token appends exactly its three bytes |
| Txt2Pal.Palette | TOOLS/txt2pal.py:32-35 | the bytes written for a list of tokens, token after token; no contract of its own, PaletteStep and PaletteLayout state its contents |
| Txt2Pal.PaletteLayout | TOOLS/txt2pal.py:31-35 | the output holds 3 bytes per token; byte 3k + c is channel c of token k, that is pair [2c:2c+2] masked; every byte is below 64 |
| Txt2Pal.MaskKeepsChannels | TOOLS/txt2pal.py:25-34 | on a colour token the lead digit is at most 3, so the mask leaves the pair value unchanged |
| Txt2Pal.FormatColor | TOOLS/txt2pal.py:25 | three 6-bit channels written as hex form a colour token |
| Txt2Pal.ColorRoundTrip | TOOLS/txt2pal.py:25-34 | formatting the three bytes of a token gives the token back |
| Txt2Pal.BytesRoundTrip | TOOLS/txt2pal.py:25-34 | reading the token of three 6-bit channels gives the channels back, so tokens and byte triples correspond one to one |
| Txt2Pal.TextToPalette | TOOLS/txt2pal.py:25-35 | fails with the token count exactly when fewer than 256 tokens are found in the lower-cased text, before any byte is written; otherwise writes exactly 768 bytes, the palette of the first 256 tokens in order of appearance |

## Left out

- Argument parsing and `main` (TOOLS/adl2ins.py:144-166; TOOLS/txt2pal.py:5-21) are command-line glue.
- Reading and writing files (TOOLS/adl2ins.py:127-128, 162-163; TOOLS/txt2pal.py:23, 31) is I/O. The ADL file comes in as a byte sequence and the source text as a string.
- Export files are returned as a sequence of name/contents pairs, in the order they would be written. Writing them into a mutable directory is not modelled.
- The palette is returned as the byte sequence written to the output stream.
- `export_dir.mkdir`, the directory in the exported path and `Path.resolve` (TOOLS/adl2ins.py:87-88, 123, 138) are filesystem calls. Only the file name `{id:02d}.INS` is modelled.
- All `print` output is presentation (TOOLS/adl2ins.py:81-85, 114-120, 132-141; TOOLS/txt2pal.py:37). This includes the hex dump of each record and the final summary.
- The default output name from `os.path.splitext` (TOOLS/txt2pal.py:17-21) depends on platform path rules and is not modelled.
- The song index and the track pointer table are only skipped over by the source. Their contents are not modelled.
- ReadLe16: the offset is natural. Python's negative indexing for a negative offset is not modelled; the only caller passes offsets of 620 or more.
- ReadLe16: the source combines the bytes with `|` and `<< 8`. The model writes `lo + hi * 256`, which is the same value because the low byte is below 256. Likewise `& 0x3F` is modelled as `% 64`, which is equal for non-negative values.
- Lower: `str.lower()` is modelled on ASCII letters only. Unicode case mappings, some of which change the length of a string, are not modelled.
- IsWordChar: the regular expression's `\w` is modelled as ASCII `[A-Za-z0-9_]`. Python's Unicode word characters are treated as non-word characters, so a colour token next to, say, an accented letter counts as a match here but not in Python.
- FindAll models `re.findall` for this one pattern only, not a general regular-expression engine.
- The permutation of the 11 bytes is not stated as a multiset equality. FieldTablesAreInverse, HscRecordMatchesDocumentedMapping and HscRecordOnto state it as a bijection between positions, which is stronger.

The loop breaks at the first slot past the end, before `read_le16` is called (TOOLS/adl2ins.py:95-96). Every later slot is past the end too (UnreadableIsFinal), so `read_le16`'s 0xFFFF fallback is never reached from the loop. `Scan` stops at the first `Unreadable` slot, and ListingStopsAtShortTable states what that means for the listing.
