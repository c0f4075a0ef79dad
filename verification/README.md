# DWG and DXF: a verified model

This project models the byte and bit work that the `dwg` crate's examples, benchmarks and the
library code under them do, and proves what that work is for: what one side writes the other
reads back, loops that give a verdict give it exactly when a declarative condition holds, and
edits in place change what they should and nothing else.

* **Bits and codes** (`Bits`, `Codes`, `BitIo`, `Versions`): the bit writer and the bit cursor as
  classes over a sequence of bits, most significant first, with every form the records use (`B`,
  `BB`, `RC`, `RS`, `RL`, `RD`, `BS`, `BL`, `BLL`, `BD`, `MC`, `MS`, `H`; section 2 of the Open
  Design Specification for .dwg files v5.4.1). The writer is proved against the bits it appends,
  the cursor against a reading function of the data and a position, and each pair is proved to
  round-trip at any bit alignment.
* **Records** (`RecordWriter`, `RecordReaders`, `StringStream`, `RecordLaws`, `LibraryLocator`,
  `PreambleLaws`, `BlockLaws`, `ReadingLaws`): the fixture writer's object record with its two
  emissions, string stream, trailer, handle stream, padding, size and CRC; the readers that other
  examples and the library carry, written without knowledge of the writer; and the laws between
  them, the backward search for the trailer first of all. Forms that this writer never emits are
  written down beside the readers: every preamble, every way to refer, every tag.
* **Streams and files** (`Coverage`, `ObjectStream`, `HandleMap`, `FlatFile`, `FrameLaws`):
  records back to back, the handle map in its delta-coded sections, the walks by handle and by
  size, the sweeps that decide whether a stream is tiled, and the flat file whose locators lead
  to all of it.
* **DXF decisions** (`DxfText`, `DxfTwin`, `Pairing`, `DictionaryAlignment`, `XRecord`): the
  section grammar, the pairing of handles, the ordered comparison of dictionaries, the comparison
  of an XRECORD's values.
* **Surgery in place** (`Mask`, `BitPatch`): values cut to `_` in nested text, bytes found and
  written at bit offsets.
* **The Reed-Solomon codes** (`GaloisField`, `RsDecoder`, `ErrorWords`, `RsLocator`,
  `RsMagnitudes`, `RsLaws`, `RsEncoder`, `ReedSolomon`): both fields with their tables, the
  decoder (syndromes, Berlekamp-Massey, root search, elimination), the encoder and the
  interleaved pages. The decoder is proved to be bounded-distance decoding, exactly: it gives the
  one codeword within reach of its input and refuses when there is none.
* **Arithmetic cores** (`SectionPages`, `Lz77`, `Lz77Streams`): page coverage, and the LZ77
  dialect with its two literal encoders and all the streams it accepts. (`Results` and `Sorting`
  hold what several modules share.)

Loops of the source are methods with loops, proved equal to a specification function; the laws
are lemmas about those functions. Where the code does not keep a promise on all inputs the law is
an if-and-only-if that says when it does: minus zero in a `BD`, sizes past 32 bits, a third `MS`
module in the tiling sweep, the preamble before R2004, names of 0xFFFF bytes, more than 31
strings or a string stream of 0x8000 bits, one to three literals, an occurrence at the very end
of the searched bytes. For dictionary keys that repeat there are two such laws:
`NeverMisledExactly` says for which export entries no context misleads the comparison, and
`FaultlessExactlyWhenAligned` that under the pairing's own relation no repetition does, as long
as the entries name records the export has; `RepeatedKeysCanMislead` is a pairing where one does
not.

How things are represented: a double is its 64-bit pattern; text is code units, bytes or
characters as the code treats it; a CRC is an unspecified function from bytes to 16 bits, the
same for writer and reader; a record's body is the bits its closure writes; a reader's error is a
value of `Result` or `Option`. Integer widths are explicit where the code's own arithmetic can
reach them: stored sizes are taken modulo 2^16 or 2^32, an `MC` is read into 64 bits, handle map
deltas wrap. An in-memory length of 2^63 or more is not considered; a record law that needs this
says so in the predicate `Fits`.

The probe and the library differ in one place that matters: for a two-word string size
`examples/probe_string_stream.rs:130-137` takes 33 and 16 bits off where
`src/string_stream.rs:105-113` takes 33 in all. `TrailersAgreeOnOneWord` says when the two agree,
`TwoWordStreamsAreMissed` that the probe's search then misses the stream. Both are modelled as
their code has it. When fewer than 49 bits stand before the end the probe's subtraction leaves
the unsigned range; the model has no candidate there.

To check everything: `dafny verify dfyconfig.toml`.

## Model

| member | source | states |
|---|---|---|
| `RecordLaws.StringStreamIsLocated` | examples/build_fixtures.rs:259-277 | From R2010 on, for every handle, type code, body and reference list and every non-empty string list: the replay ends the data on the bit after the strings-present flag, and the backward search has, among its candidates, the true end with the true size, start and strings, if and only if the strings take under 0x8000 bits, are at most 31 and are all printable ASCII |
| `RecordLaws.ReplayReads` | examples/probe_string_stream.rs:208-237 | The replay of every such record, with strings or without, gives the first body bit, the bit where the handle stream starts and the width of the leading `MC` |
| `RecordLaws.HandleStreamReads` | examples/build_fixtures.rs:278-287 | Read from where it starts, the handle stream gives back exactly the references written, in order, and fewer than eight padding bits follow them |
| `RecordLaws.ObjectSizeIsHandleStart` | examples/build_fixtures.rs:258-259 | The `RL` a reader finds is the bit where the handle stream starts, counted from the first payload bit, if and only if that bit is below 2^32 |
| `RecordLaws.PrologueReads` | examples/probe_mtext_fields.rs:38-59 | Both prologue readers stop on the first body bit of every written record; the walker's gives back type code, object size and handle |
| `RecordLaws.RunReads` | examples/probe_string_stream.rs:161-184 | Any list of printable strings shorter than the turn limit reads back from any bit and lands on its own end |
| `RecordReaders.ProloguesAgree` | examples/probe_mtext_fields.rs:38-59 | The field walker's way past the prologue and the object walker's agree, errors included, wherever the leading `MC` is one the stricter reader accepts |
| `StringStream.CandidatesAreTheQualifyingEnds` | examples/probe_string_stream.rs:120-158 | The candidates are exactly those with a set flag bit before their end, the size, start and stop of the trailer there, and fewer than 32 printable strings, each written at the place where the one before ended and the last ending on the stop bit |
| `StringStream.RunIsSpelled` | examples/probe_string_stream.rs:161-184 | A run is accepted with given strings exactly when those strings are written one after the other from the start to the stop bit, all printable and below the turn limit |
| `LibraryLocator.LibraryFindsTheStream` | src/string_stream.rs:97-115 | The library's own locator finds the string stream of every written record from R2010 on, its start and stop, if and only if the strings take under 0x8000 bits |
| `LibraryLocator.LibraryFindsNoStream` | src/string_stream.rs:97-138 | In a record without strings it finds none, and the data fields end where the body ended |
| `LibraryLocator.TrailersAgreeOnOneWord` | src/string_stream.rs:105-113 | Wherever the probe's trailer arithmetic and the library's both give an answer the sizes agree, and the stop bits agree if and only if the size word is below 0x8000; otherwise the probe's stop is 16 bits too early |
| `LibraryLocator.TrailersNeedRoom` | examples/probe_string_stream.rs:128-140 | A one-word trailer is read wherever its word is; of a two-word one the library reads whatever stands before it and the probe only from 49 bits on |
| `LibraryLocator.TwoWordStreamsAreMissed` | examples/probe_string_stream.rs:128-140 | A stream with a two-word trailer is never among the candidates, whatever its strings: a candidate at its end starts 16 bits before it |
| `LibraryLocator.SectionEndsOnR2007` | src/string_stream.rs:158-179 | On R2007 the data area found from the `RL` ends where the handle stream starts if and only if that is below 2^32 |
| `LibraryLocator.ReferencesComeBack` | src/object.rs:822-858 | The walk over a written record's references gives those that lead to an object, in order, each with its code and with the relative ones resolved against the record's handle |
| `LibraryLocator.AbsoluteReferences` | src/object.rs:822-858 | Of references with codes 2 to 5 and no null among them nothing is lost or changed |
| `LibraryLocator.ChosenReferencesLead` | src/object.rs:843-856 | Every list of objects, each referred to outright, as the next or the previous handle, or by the distance up or down round 2^64, comes back as those objects under the codes 2 to 5, 6, 8, 0xA and 0xC |
| `LibraryLocator.LeadsExactly` | src/object.rs:843-856 | A reference gives the one object it leads to, and nothing exactly when that is none or the null one; every other code leads nowhere |
| `BlockLaws.BlockClosesOnR2004` | examples/probe_field_list.rs:45-63 | For every block name on R2004: after header and preamble the inline `TV` reads back the name and ends on the bit the `RL` states, if and only if its byte count with the NUL fits 16 bits |
| `BlockLaws.BlockClosesFromR2010` | examples/build_fixtures.rs:421-466 | For every block name from R2010: the preamble ends on the string stream's first bit and the located stream holds that name alone, if and only if it is under 0x8000 bits and printable |
| `BlockLaws.PreambleClosesFromR2004` | examples/probe_acis_records.rs:77-150 | The preamble reader stops where the writer stopped if and only if the release is R2004 or later, and there it reads the plain entity |
| `BlockLaws.OldPreambleOverruns` | examples/probe_acis_records.rs:95-150 | Before R2004, whose `Nolinks` bit the reader does not know, a reading that succeeds at all runs past the written preamble |
| `PreambleLaws.PreambleReads` | examples/probe_acis_records.rs:77-150 | Every preamble on every release reads back and ends on its last bit: any chain of extended data, a preview of either width, a set data-store flag with its marker, a colour with the longs its flags announce; minus zero was written as zero |
| `PreambleLaws.ChainReads` | examples/probe_acis_records.rs:79-88 | Every chain of application handles and bytes is passed up to its closing zero |
| `PreambleLaws.ColourReads` | examples/probe_acis_records.rs:115-125 | A colour word is followed by a transparency for bit 13 and an RGB value for bit 15 without bit 14, from R2004 on |
| `BlockLaws.TvReads` | examples/probe_field_list.rs:54-62 | An inline string reads back, ending where it was written to end, if and only if it has fewer than 0xFFFF bytes |
| `ObjectStream.RecordIsWalked` | src/object.rs:585-670 | A record standing anywhere in a byte string is walked back whole and leaves the walker on the byte after its CRC |
| `ObjectStream.HandleDrivenWalkReturnsRecords` | src/object.rs:527-574 | Over the writer's own map the handle-driven walk visits every record in order, skips none and reports no handle mismatch |
| `ObjectStream.SequentialWalkReturnsRecords` | src/object.rs:577-582 | So does the walk that follows the records' own sizes, without an error |
| `ObjectStream.WalkSorts` | src/object.rs:527-574 | Over any bytes and any map: skipped are exactly the entries without a record, mismatched those whose record states another handle, and every record read is an object under the map's handle, all in map order |
| `ObjectStream.WrongHandleIsListed` | src/object.rs:553-562 | A written record is listed as mismatched exactly under a handle that is not its own |
| `ObjectStream.MsOfAny` | src/object.rs:676-700 | An `MS` of any writer reads back from up to three modules, minimal or not, and loses what is above 32 bits |
| `ObjectStream.CutRecord` | src/object.rs:585-625 | A record that breaks off is an error while its size is cut and no record after that |
| `ObjectStream.CutStreamWalks` | src/object.rs:577-625 | A stream that breaks off gives the whole records before the cut, or an error where the cut runs through a size |
| `ObjectStream.StreamReadsThroughItsMap` | examples/build_fixtures.rs:568-580 | The stream read through the parsed handle map: map and both walks give back the records at their offsets |
| `ObjectStream.BuiltStreamTiles` | examples/probe_reference_closure.rs:111-142 | Over the walk of a built stream the sweep has 4 leading bytes, and no byte between or after records if and only if every record is below 2^30 bytes (a longer one's third `MS` module is left out of its span) |
| `HandleMap.ParseUndoesWrite` | src/handle_map.rs:282-332 | Parsing a written map gives back its entries in any handle order, whatever the section breaks, if and only if they are within the cap of 1,000,000; past it the parser refuses |
| `HandleMap.GetSignedMcAt` | src/handle_map.rs:357-376 | Every signed 64-bit value, the least one included, survives its modular char at any bit |
| `HandleMap.MagnitudeReads` | src/bitcursor.rs:36-47 | Of any 64-bit magnitude with a sign exactly the signed 64-bit values read; the others are refused |
| `HandleMap.BrokenSectionParses` | src/handle_map.rs:109-134 | A section whose last pair breaks off gives the pairs before it and the map is read on behind it |
| `HandleMap.MapEnds` | src/handle_map.rs:78-108 | A map ends at an empty section or a single byte and is refused at a section of less than its checksum or more than there is |
| `FlatFile.FlatFileReads` | examples/build_fixtures.rs:625-680 | The flat file read back: release and locators, the map parsed through its locator, every record walked at the absolute offset the map gives, both framed sections with data, CRC and end sentinel in order |
| `FlatFile.SectionsRead` | src/reader.rs:390-405 | Following each locator gives exactly the section written there; no other number has one |
| `FlatFile.HeaderReads` | src/header.rs:96-125 | The header of every built file reads back as its release and its three locators, sizes and seekers in 32 bits |
| `FlatFile.EverythingSits` | examples/build_fixtures.rs:652-679 | No region of the file disturbs another, and the header checksum is that of the finished file's first 0x34 bytes |
| `FlatFile.UnframeUndoesFraming` | src/header_vars.rs:314-391 | Taking a framed section apart gives back its data with checksum and end sentinel right |
| `FrameLaws.UnframesExactly` | src/header_vars.rs:314-391 | A section is taken apart exactly when it is framed behind its start sentinel with its own size; the report is right about checksum and end whatever stands there |
| `FrameLaws.HeadersExactly` | src/header.rs:96-125 | A file has a header exactly when it begins with a release's six characters and, from byte 0x15, a count and so many locators |
| `FrameLaws.FixtureHeaderSays` | examples/build_fixtures.rs:652-679 | The fixture's header has the byte 1 at 0x0C, code page 30 and the closing sixteen bytes |
| `FrameLaws.FirstLocatorDecides` | src/reader.rs:390-405 | Of several locators with a number the first decides |
| `DxfTwin.AcceptsExactlyTheGrammar` | examples/probe_class_census.rs:167-258 | The reader accepts if and only if every code is a number and the groups but 999 comments are (SECTION, 2 name, body, ENDSEC)* EOF with nothing after, not even a comment, ENTITIES and OBJECTS among the names |
| `DxfTwin.AcceptedTwinHolds` | examples/probe_class_census.rs:226-246 | On acceptance a name's list has one entry per group 0 of that name, the first 5 or 105 that holds a handle before the next group 0; a class has the last count its own records give it |
| `DxfTwin.RefusalsAreExact` | examples/probe_class_census.rs:184-258 | A refusal with a line names the first group that breaks the grammar, on its line, with the reason: section still open or not, name awaited, EOF passed, code no number; one without says what the whole lacks |
| `DxfTwin.CommentsChangeNothing` | examples/dxf_census.rs:276-306 | A numeric 999 pair at any boundary leaves verdict, records and counts as they were unless it stands after EOF, where it is refused; in a refused file it mends nothing |
| `DxfTwin.LinesAreGroups` | examples/probe_class_census.rs:167-186 | Groups come back from their lines whatever white space pads them |
| `DxfText.ParsesU64Exactly` | examples/probe_class_census.rs:226-243 | Exactly the digits of a number below 2^64 parse, upper or lower case, leading zeros or not, one plus sign or none |
| `DxfText.ParsesI64Exactly` | examples/probe_class_census.rs:186-189 | Exactly the decimal digits of a signed 64-bit number parse, with its sign |
| `DxfText.TextReads` | examples/probe_class_census.rs:226-243 | Every number written by division, in hexadecimal of either case or in decimal, reads back exactly while it fits |
| `DxfText.NormalizeOfOne` | examples/probe_class_census.rs:504-509 | Letters count as their upper case, decimal digits as they are, nothing else counts |
| `DxfText.TrimTakesSpace` | examples/probe_class_census.rs:186-187 | Trimming takes off white space at both ends and all of it |
| `DxfText.SpacesAreThese` | examples/probe_class_census.rs:186-187 | White space is the 25 characters Unicode calls so |
| `Mask.MaskSettles` | examples/probe_cross_release.rs:64-101 | For every text and list of identifier names: afterwards every word-boundary occurrence of every key is followed by `_` and then a closing bracket, a comma or the end |
| `Mask.PassReplacesTheValues` | examples/probe_cross_release.rs:67-98 | A name's pass replaces exactly the outermost values of its pairs, each up to the first comma or closing bracket at its own depth, by `_` and keeps every other character |
| `Mask.DepthIsBalance` | examples/probe_cross_release.rs:76-91 | The depth is how many more of `{([` than of `})]` stand in between |
| `Mask.CharactersAre` | examples/probe_cross_release.rs:70-91 | The brackets, the characters that end a value and those of a word, one by one |
| `Mask.MaskIsIdempotent` | examples/probe_cross_release.rs:64-101 | Masking twice is masking once |
| `Pairing.PairingStaysSound` | examples/probe_dxf_objects.rs:521-565 | Throughout both loops: `rel` is one to one, its values are exactly `taken`, a handle both sides have pairs with itself, any other pair has one kind and a handle the export made, and no pair is ever lost or replaced |
| `Pairing.PairsAreNamed` | examples/probe_dxf_objects.rs:521-565 | Every pair but those of shared handles was named by one of two things: an unpaired dictionary took the first export record of its kind, under its owner taken through the pairing so far, that was the export's own and not taken; or a paired dictionary has an entry that names the one object, and the first entry of the same key and code in its pair names the other, of the same kind |
| `Pairing.UnpairedHadNone` | examples/probe_dxf_objects.rs:530-543 | A dictionary that stays unpaired when seen had no such record: each of its kind under its owner is taken or below the seed |
| `Pairing.PairedDictionariesAreSettled` | examples/probe_dxf_objects.rs:545-564 | Nothing is missed: of two objects under one key and code in a dictionary and its pair, once seen, one is paired, or the kinds differ, or the export's is below the seed, and that stays so |
| `Pairing.EntriesGrow` | examples/probe_dxf_objects.rs:152-167 | A group adds an entry exactly when it is a reference with a handle and the last key or reference before it is a key with a text, and then that entry |
| `DictionaryAlignment.FaultlessExactlyWhenAligned` | examples/probe_dxf_objects.rs:914-973 | Under the pairing's own `rel`, where the export's entries name records of the export, the comparison finds no fault if and only if the kept entries embed in order and every other entry is excused, however often a key repeats |
| `DictionaryAlignment.NeverMisledExactly` | examples/probe_dxf_objects.rs:914-973 | For any context and any written entries: an embedding is never called a fault if and only if, of any two entries with one key and code that name different objects, another entry for the later one's object stands between them |
| `DictionaryAlignment.FaultlessIffAligned` | examples/probe_dxf_objects.rs:914-973 | The verdict is exact in every context where of two entries that one written entry matches the later can stand back |
| `DictionaryAlignment.FaultlessEmbeds` | examples/probe_dxf_objects.rs:928-973 | Without that condition too, a comparison without fault embeds the kept entries in order, all counted as agreeing |
| `DictionaryAlignment.ScoreCounts` | examples/probe_dxf_objects.rs:928-973 | The score of any comparison: written entries agree one behind the other, each at the first match behind the one before, as far as that goes; the rest are extra; the export's entries passed over are counted as omitted or in disagreement by what excuses them |
| `DictionaryAlignment.RepeatedKeysCanMislead` | examples/probe_dxf_objects.rs:931-936 | Records whose pairing makes the comparison report a fault although an embedding exists: a key twice, one of its entries naming no record |
| `XRecord.AgreementIsDivision` | examples/probe_code_page.rs:393-447 | The comparison agrees with n exceptions if and only if the data divides among the items into their forms, n of them being single groups made anew by the save |
| `XRecord.ExactAgreement` | examples/probe_code_page.rs:313-351 | It agrees without exception if and only if the data is exactly the items' forms one after the other, a point being three groups at +0, +10 and +20 |
| `XRecord.DataIsBehindMarker` | examples/probe_code_page.rs:393-410 | The data is all behind the first marker, a 280 directly after it left out |
| `XRecord.NoMarkerNoData` | examples/probe_code_page.rs:404-408 | There is none exactly when no group is a marker |
| `XRecord.PointIsThreeGroups` | examples/probe_code_page.rs:324-328 | A point is its three reals at the item's code, ten and twenty above |
| `XRecord.OthersAreOneGroup` | examples/probe_code_page.rs:313-351 | Any other item is one group at its code: a handle its hexadecimal number, at 1003 the name of its layer, bytes their digits in either case |
| `XRecord.AnewExactly` | examples/probe_code_page.rs:353-383 | A value made anew is a handle, another GUID or the save's path on the drawing's stem, in two records only |
| `XRecord.GuidIsFiveRuns` | examples/probe_code_page.rs:373-383 | A GUID is runs of 8, 4, 4, 4 and 12 hexadecimal digits in braces with hyphens between |
| `XRecord.RttcalBlockIs` | examples/probe_code_page.rs:495-505 | The block that may be lacking is those four items, the short and the long of any value |
| `BitPatch.MatchIsOccurrence` | examples/probe_code_page.rs:754-764 | The shifted byte comparison is bit-for-bit occurrence at that offset |
| `BitPatch.PatchedStringReads` | examples/probe_code_page.rs:887-907 | Over a found string the patch reads as its four bytes and then the string's old rest, behind its own page byte if it has one; the header's page reads as the one in force; no bit outside those moves |
| `SectionPages.BytesBalance` | examples/probe_section_pages.rs:169-181 | The bytes produced are at least the high-water mark less the gaps, and equal to it if and only if no byte is produced twice |
| `RsLaws.VerifiesExactly` | src/reed_solomon.rs:96-132 | The decoder gives a codeword and a count if and only if the word given differs from that codeword in exactly that many bytes, at most half the parity: every such error is mended and nothing else is ever given |
| `RsLaws.RefusesExactly` | src/reed_solomon.rs:96-132 | It refuses exactly the words that no codeword is within reach of |
| `RsLaws.ErrorsAreMended` | src/reed_solomon.rs:102-132 | A codeword with up to half as many wrong bytes as parity bytes, anywhere and whatever they are, comes back with their number |
| `RsLaws.CodewordsAreFarApart` | src/reed_solomon.rs:86-94 | Two words with zero syndromes differ in more bytes than there are parity bytes |
| `RsLocator.LocatorLocates` | src/reed_solomon.rs:255-289 | Berlekamp-Massey: for at most half as many errors as syndromes the locator has one coefficient more than there are errors and its roots are exactly their places |
| `RsLocator.StepStaysGood` | src/reed_solomon.rs:255-289 | Every turn keeps: the polynomial annuls the syndromes so far, is no longer than the number of errors allows, and the one before the last lengthening fails where noted |
| `RsLocator.RootsAreFew` | src/reed_solomon.rs:108-113 | A polynomial has fewer roots than coefficients |
| `RsMagnitudes.MagnitudesAreErrors` | src/reed_solomon.rs:292-325 | The elimination never lacks a pivot and its last column is the list of the errors |
| `RsMagnitudes.EliminationSolves` | src/reed_solomon.rs:292-325 | Where the equations have one solution the elimination ends with it |
| `ErrorWords.FewErrorsShow` | src/reed_solomon.rs:86-94 | A word with at most n places other than 0 that has n syndromes in a row at 0 is 0 everywhere |
| `RsEncoder.MessageDeterminesCodeword` | src/reed_solomon_encode.rs:39-62 | No two codewords start with the same message |
| `GaloisField.EveryElementIsAPower` | src/reed_solomon.rs:199-251 | Under both polynomials every element but 0 is one of the 255 powers of 2 |
| `GaloisField.PowersDiffer` | src/reed_solomon.rs:199-251 | No two of those powers are equal |
| `GaloisField.MulDistributes` | src/reed_solomon.rs:199-251 | The product by logarithms distributes over exclusive or |
| `ReedSolomon.InterleavingUndoes` | examples/probe_r2007_rs.rs:141-143 | Taking a page apart by codewords and interleaving them again gives the page |
| `ReedSolomon.DeinterleavingUndoes` | src/reed_solomon.rs:134-165 | Interleaving codewords and taking them apart again gives the codewords |
| `ReedSolomon.IndexIsOneToOne` | examples/probe_r2007_rs.rs:141-143 | `blocks * i + j` lies in the page and determines byte and codeword |
| `ReedSolomon.IndexIsOnto` | examples/probe_r2007_rs.rs:141-143 | Every place of the page is some byte of some codeword |
| `ReedSolomon.DamageIsCounted` | examples/probe_r2007_rs.rs:158-162 | As many errors as either code corrects fall on as many different bytes, for every codeword number |
| `ReedSolomon.PageIsMended` | src/reed_solomon.rs:139-165 | A page whose codewords all have no more wrong bytes than the code corrects, wherever and whatever they are, comes back byte for byte with as many corrections as bytes were wrong |
| `Lz77.LiteralsDecompress` | src/lz77.rs:103-231 | A literal stream of four literals or more decompresses to its literals, or is refused when they are over the output limit |
| `Lz77Streams.DecompressesExactly` | src/lz77.rs:103-231 | An input decompresses to an output if and only if it begins with a stream, literals and references in any of the five opcode classes, that expands to it within the limits: every copied byte equals the one `offset` before it |
| `Lz77Streams.StreamDecompresses` | src/lz77.rs:103-231 | Every stream decompresses to just the output it expands to |
| `Lz77Streams.BackrefReadsExactly` | src/lz77.rs:136-183 | A reference is read exactly where the bytes of a class that can state its count, offset and literal count stand, with the position after them |
| `Lz77Streams.TokenStep` | src/lz77.rs:185-228 | One token in place: copied and followed by its literals, or refused with the reason that comes first |
| `Lz77Streams.CopiedExactly` | src/lz77.rs:215-225 | An output goes on with a copy exactly when it repeats what stands `offset` before |
| `Lz77.DecompressUndoesCompress` | src/lz77_encode.rs:60-103 | Only lengths 1 to 3 cannot be compressed; every other input comes back if and only if it is within the output limit |
| `Lz77.BenchmarkStreamDecompresses` | benches/lz77.rs:27-55 | The benchmark's stream of n literals decompresses to them if and only if n is at least 4; for n = 3 the prefix byte 0 is read as an extension and the stream is truncated |
| `Lz77.PrefixReads` | benches/lz77.rs:29-50 | From four on the prefix reads back as the length with the cursor on the first literal |
| `Lz77.PrefixLength` | benches/lz77.rs:32-50 | The length of the prefix in closed form, its last byte always in 1..255 |
| `Lz77.CopyRepeats` | src/lz77.rs:215-225 | A back-reference repeats what stands `offset` bytes before, however far it reaches into its own output |
| `Lz77.OutputStaysWithinLimit` | src/lz77.rs:103-231 | Nothing decompresses to more than the limit |
| `Coverage.SweepsAgree` | examples/probe_class_census.rs:356-399 | Leading, inter-record and trailing bytes add up to the unclaimed count, for spans that overlap or nest too |
| `Coverage.LengthsAdd` | examples/probe_class_census.rs:344-366 | The claimed bytes are the sum of the spans' own lengths |
| `Codes.GetBitsAt` | src/bitcursor.rs:111-138 | A fixed-width field reads back at any bit |
| `Codes.GetLeAt` | src/bitcursor.rs:336-358 | RS, RL and RD read back at any bit |
| `Codes.GetBsAt` | src/bitcursor.rs:190-210 | A BS reads back at any bit, all four forms |
| `Codes.GetBlAt` | src/bitcursor.rs:221-243 | A BL reads back at any bit |
| `Codes.GetBdAt` | src/bitwriter.rs:207-219 | A BD reads back the double written if and only if it is not minus zero |
| `Codes.GetMcAt` | examples/dump_line_payload.rs:36-48 | What the signed `MC` writer emits for a value below 2^63 the unsigned readers read back |
| `Codes.GetHandleAt` | src/bitwriter.rs:337-350 | A handle reference reads back: code, counter and value |
| `ReadingLaws.LongFormsRead` | src/bitcursor.rs:190-290 | Shorts, longs and doubles in their full form read back, whatever the value |
| `ReadingLaws.ByteFormsRead` | src/bitcursor.rs:190-243 | So do shorts and longs in a byte |
| `ReadingLaws.ShortFormsRead` | src/bitcursor.rs:190-290 | A tag alone is 0, 256 or one; tag 3 is refused for longs and doubles |
| `ReadingLaws.HandleCountersRead` | src/bitcursor.rs:433-448 | Up to eight bytes of a handle read back, leading zeros too; a counter from nine on is refused |
| `ReadingLaws.ModularCharsRead` | src/object.rs:720-733 | Up to ten groups of seven digits read back into 64 bits, minimal or not |
| `ReadingLaws.TenContinuedBytes` | examples/dump_line_payload.rs:36-48 | After ten continued bytes the strict reader refuses and the other stops |
| `RecordReaders.TypeFormReads` | src/object.rs:744-759 | Every 16-bit type code reads back from each form that can state it, under all four tags |
| `ReadingLaws.InlineReads` | examples/probe_field_list.rs:54-62 | An inline string of any bytes reads back, a last NUL left out if there is one |
| `ReadingLaws.NarrowReads` | examples/probe_string_stream.rs:186-206 | Before R2007 the counted bytes are read as they are |
| `ReadingLaws.WideReads` | examples/probe_string_stream.rs:186-206 | From R2007 on the counted code units, refused if they are no UTF-16 |
| `ReadingLaws.WellFormedExactly` | examples/probe_string_stream.rs:191-198 | Code units are accepted exactly when they are some text in UTF-16 |
| `ReadingLaws.OldReplayReads` | examples/probe_string_stream.rs:208-237 | On R14 and R2000 the replay ends on the first body bit of every record and knows no data end |
| `BitIo.BitWriter.WriteBits` | src/bitwriter.rs:71-86 | Appends the low digits of the value, highest first |
| `BitIo.BitWriter.WriteBs` | src/bitwriter.rs:128-148 | Appends the BS form of the value |
| `BitIo.BitWriter.WriteBl` | src/bitwriter.rs:151-171 | Appends the BL form |
| `BitIo.BitWriter.WriteBd` | src/bitwriter.rs:207-219 | Appends the BD form; minus zero takes the short form of zero |
| `BitIo.BitWriter.WriteMc` | src/bitwriter.rs:263-309 | Appends the signed modular char, a last limb that needs bit 6 followed by one more byte |
| `BitIo.BitWriter.WriteHandle` | src/bitwriter.rs:337-350 | Appends code, counter and the value's bytes, highest first |
| `BitIo.BitWriter.IntoBytes` | src/bitwriter.rs:62-64 | The bytes carry the written bits, the last one padded with clear bits |
| `BitIo.BitCursor.ReadBits` | src/bitcursor.rs:111-138 | Chunk by chunk, gives the number in the next digits, or leaves the cursor alone when they run out |
| `BitIo.BitCursor.ReadBs` | src/bitcursor.rs:190-210 | Gives what the BS form states and stops after it |
| `BitIo.BitCursor.ReadBl` | src/bitcursor.rs:221-243 | Gives what the BL form states; tag 3 is an error |
| `BitIo.BitCursor.ReadBd` | src/bitcursor.rs:273-290 | Gives what the BD form states |
| `BitIo.BitCursor.ReadHandle` | src/bitcursor.rs:433-448 | Gives code, counter and value; a counter over 8 is an error |
| `RecordWriter.BuildRecord` | examples/build_fixtures.rs:226-308 | The two-pass writer produces exactly the specified record: `MS` without the `MC`, payload, CRC over both |
| `RecordWriter.BuildStream` | examples/build_fixtures.rs:258-287 | Two emissions, trailer, handle stream, padding |
| `RecordWriter.Emit` | examples/build_fixtures.rs:238-257 | Type, size field, handle and body in the release's form |
| `RecordWriter.WriteMs` | src/bitwriter.rs:313-334 | Modular short in 15-bit modules |
| `RecordWriter.WriteCommonEntityPreamble` | examples/build_fixtures.rs:127-170 | Appends the plain preamble with the release's branches |
| `RecordWriter.WriteStringStreamTv` | examples/build_fixtures.rs:189-196 | Appends one `TU`: 16-bit count and UTF-16LE units |
| `RecordWriter.WriteTvInline` | examples/build_fixtures.rs:334-344 | Appends one inline `TV`, NUL counted; empty is a count of 0 |
| `BlockLaws.WriteBlockBody` | examples/build_fixtures.rs:421-427 | Preamble, and before R2007 the name |
| `RecordReaders.ReadMcUnsigned` | src/object.rs:720-733 | The loop that or-s in groups at a growing shift reads the specified number, in 64 bits |
| `RecordReaders.ReadObjectType` | examples/probe_string_stream.rs:239-254 | The type code of both encodings |
| `RecordReaders.ReadPrologue` | src/object.rs:629-651 | The walker's reading of the record prologue |
| `RecordReaders.SeekPastObjectHeader` | examples/probe_mtext_fields.rs:38-59 | The field walker's reading of it |
| `RecordReaders.ReadPreamble` | examples/probe_acis_records.rs:77-150 | The preamble with its extended-data loop and release branches |
| `RecordReaders.ReadTvInline` | examples/probe_field_list.rs:54-62 | The inline string, a trailing NUL dropped |
| `LibraryLocator.ForEachHandleReference` | src/object.rs:822-858 | References until one cannot be read, relative codes resolved, null targets and other codes passed over |
| `LibraryLocator.Locate` | src/string_stream.rs:97-115 | The library's search for the string stream |
| `LibraryLocator.FindDataSectionEnd` | src/string_stream.rs:158-197 | Where the data area ends, by release |
| `StringStream.Candidates` | examples/probe_string_stream.rs:120-158 | The loop over ends gives the specified candidates |
| `StringStream.ReadStringRun` | examples/probe_string_stream.rs:161-184 | At most 31 printable strings that land on the stop bit |
| `StringStream.ReadTv` | examples/probe_string_stream.rs:186-206 | One string in the release's form; unpaired surrogates are refused |
| `StringStream.Replay` | examples/probe_string_stream.rs:208-237 | Header end, data end and `MC` width |
| `Coverage.Census` | examples/probe_class_census.rs:344-368 | `claimed` is the sum of the spans' lengths, `unclaimed` the count of bytes in no span and `largest` the longest uncovered run, overlaps or not |
| `Coverage.Locate` | examples/probe_class_census.rs:386-399 | Leading, inter-record bytes and runs, trailing, by what is covered |
| `Coverage.SweepTurn` | examples/probe_class_census.rs:360-366 | One turn: the gap before the span is all that is newly left out |
| `ObjectStream.BuildObjectStream` | examples/build_fixtures.rs:568-580 | Prefix, records, entries at the records' first bytes |
| `ObjectStream.AppendRecords` | examples/build_fixtures.rs:572-578 | Records back to back with their offsets in any address space |
| `ObjectStream.ReadOneAt` | src/object.rs:585-670 | One record read, none there, or an error |
| `ObjectStream.ReadMs` | src/object.rs:676-700 | Byte-aligned `MS` of at most three modules in 32 bits |
| `ObjectStream.ReadMcWidth` | src/object.rs:709-716 | Bytes up to the first not continued, ten at most |
| `ObjectStream.HandleDrivenWalk` | src/object.rs:527-574 | Records, skipped entries and mismatches in map order |
| `ObjectStream.SequentialWalk` | src/object.rs:396-402 | Records until none is there; no list when one cannot be read |
| `ObjectStream.StreamTiling` | examples/probe_reference_closure.rs:111-142 | The sweep and the `closed` verdict of the stream half |
| `HandleMap.WriteHandleMap` | src/handle_map.rs:282-332 | Greedy sections of at most 2032 bytes, each restarting its deltas, then an empty one |
| `HandleMap.WriteSignedMc` | src/handle_map.rs:199-243 | A signed 64-bit value as limbs |
| `HandleMap.ReadSignedMc` | src/handle_map.rs:357-376 | Groups to magnitude and sign |
| `HandleMap.Parse` | src/handle_map.rs:78-141 | Section after section until one is empty, with every refusal |
| `HandleMap.TakenAscends` | src/handle_map.rs:292-321 | A section's entries ascend and its bytes stay within the limit |
| `FlatFile.BuildFlatFixture` | examples/build_fixtures.rs:625-680 | The buffer overwritten by slices is the specified file |
| `FlatFile.FrameSection` | examples/build_fixtures.rs:684-692 | Sentinels, size, data and the CRC of size and data |
| `FlatFile.ParseHeader` | src/header.rs:96-125 | Magic, locator count, nine-byte records |
| `FlatFile.EveryRegionSits` | examples/build_fixtures.rs:655-679 | Regions that follow one another are all found where they were put |
| `DxfTwin.ReadTwin` | examples/probe_class_census.rs:167-258 | The loop gives the specified outcome, errors and their lines included |
| `DxfTwin.RunIsSound` | examples/probe_class_census.rs:184-246 | From any state, acceptance means the rest completes the open section and then whole sections |
| `DxfTwin.RunIsComplete` | examples/probe_class_census.rs:184-246 | From any state, a rest of that form is accepted |
| `Mask.MaskValues` | examples/probe_cross_release.rs:64-101 | The loops in place give the specified text, for any names; they end |
| `Mask.ScanValue` | examples/probe_cross_release.rs:76-91 | The end of the value at its own depth |
| `Pairing.ReadEntries` | examples/probe_dxf_objects.rs:152-167 | Each reference a key waits for, in order |
| `Pairing.PairRecordsByHandle` | examples/probe_dxf_objects.rs:521-565 | Both loops give the specified pairing |
| `DictionaryAlignment.CompareEntries` | examples/probe_dxf_objects.rs:914-973 | The loop over `at` counts the specified score |
| `XRecord.XrecordAgrees` | examples/probe_code_page.rs:393-447 | Marker, cloning flag, items in turn; a code-102 item or no marker cannot be paired |
| `XRecord.GroupMatches` | examples/probe_code_page.rs:313-351 | Whether the next groups are the item's form |
| `XRecord.AppMatches` | examples/probe_code_page.rs:511-524 | None left out if the groups are all the forms, else four if they are the forms behind the one block that may be lacking |
| `BitPatch.BitFind` | examples/probe_code_page.rs:747-767 | Exactly the bit offsets below 8 * (hay - needle) where the needle's bits occur, none twice |
| `BitPatch.PutBits` | examples/probe_code_page.rs:769-779 | Exactly those eight bits change |
| `BitPatch.Patch` | examples/probe_code_page.rs:887-907 | Four bytes at the string, the page byte before it where the string has one, and the header's page outside the R2004 family; a page that is no byte is refused |
| `SectionPages.CoverSection` | examples/probe_section_pages.rs:111-187 | High-water mark, ascending disjoint gaps that are exactly the bytes below it that no page produces, and the balance of bytes |
| `ReedSolomon.DamageCodeword` | examples/probe_r2007_rs.rs:158-162 | Exactly as many bytes differ as the code corrects |
| `ReedSolomon.DamagePage` | examples/probe_r2007_rs.rs:174-177 | Exactly one byte of every codeword differs |
| `ReedSolomon.VerifyInterleaved` | src/reed_solomon.rs:139-165 | In place: every codeword what its check makes of it, the rest of the page untouched; a refusal stops the pass |
| `ReedSolomon.CheckCodeword` | examples/probe_r2007_rs.rs:140-168 | Accepted as it is, encoded again from its message, mended from as many errors as the code corrects: a codeword passes all three, any other word none |
| `ReedSolomon.CheckCodewords` | examples/probe_r2007_rs.rs:139-173 | The three counts are all the number of codewords in the page |
| `ReedSolomon.CheckInterleaving` | examples/probe_r2007_rs.rs:174-184 | The page struck once in every codeword comes back byte for byte with one correction each if and only if all of it are codewords |
| `RsEncoder.EncodeWith` | src/reed_solomon_encode.rs:39-62 | A message of the right length gives a codeword that starts with it; any other length is refused |
| `RsEncoder.Generator` | src/reed_solomon_encode.rs:23-35 | The generator has the first powers of 2 as roots, one for each parity byte |
| `RsDecoder.Verify` | src/reed_solomon.rs:102-132 | In place, a word that cannot be corrected left as it was |
| `RsDecoder.BerlekampMassey` | src/reed_solomon.rs:255-289 | The loop computes the specified locator |
| `RsDecoder.SolveMagnitudes` | src/reed_solomon.rs:292-325 | The elimination with its pivot search |
| `GaloisField.BuildTables` | src/reed_solomon.rs:199-225 | The tables hold the powers, twice over, and the logarithms |
| `Lz77.Decompress` | src/lz77.rs:103-231 | All opcode classes, every refusal, as specified |
| `Lz77.Compress` | src/lz77_encode.rs:60-103 | Prefix, literals, terminator, or the refusal |
| `Lz77.BuildLiteralStream` | benches/lz77.rs:27-55 | The benchmark's stream |

## Left out

- Opening files, walking directories, arguments, printing, exit codes, and the benchmark harness: input and output only.
- The object type enumeration, entity and table decoders, and the encoders behind a record's body: the body is any bit sequence.
- `block_header_body` and the other table bodies of the fixture writer: they are bodies like any other, and `BLOCK` is the one whose boundary the probes close on.
- The compressed container of the R2004 family (page map, section info, encryption): only the object stream and the handle map inside it are modelled.
- The values of the CRC: it is any function of the bytes.
- RecordReaders.ReadTvInline: gives the string's bytes; their lossy decoding to text is not modelled.
- StringStream.ReadTv: before R2007 it gives bytes where the code gives text decoded from them lossily.
- FlatFile.UnframeUndoesFraming: the strict reading of the flat releases; the lenient mode and the size words of later releases are not modelled.
- Which of the Reed-Solomon decoder's refusals is given: the three error texts are one refusal.
- The walker's cap on handles and its code page.
- `skip_eed` of `examples/probe_field_list.rs` and the `EED` branch of other walkers: the extended-data loop is modelled in the preamble reader.
- Which of the two string readers a release uses in `examples/probe_field_list.rs:46-53`: the inline form is modelled.
- `brackets`, `dropped` and the tallies of `examples/probe_dxf_objects.rs`: the pairing and the comparison take what they need as sets; `entries` is modelled over a record's top-level groups.
- Splitting a file into lines and replacing invalid UTF-8: the DXF reader starts from lines.
- `norm`, `close`, number parsing of groups and the hexadecimal form of a binary value in `examples/probe_code_page.rs`: the comparison takes them as functions.
- Unicode classes outside ASCII in `mask`: a parameter says which characters are letters.
- The shortfall excuses, reason histograms and corpus tallies: counters over names.
- Saturating addition in the LZ77 reader: a run would need more than 2^55 bytes to reach it.
