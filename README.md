# maug core, modelled in Dafny

maug is a portable C89 support library for small retro-style games and
tools. Its C code is a set of single-header modules. This project models
their portable core, one Dafny module per source file, together with the
two Python helper scripts that read BMP files. It proves properties of
that model:

- **Maug** (`maug.dfy`): the error codes of `merror.h`, Option and
  Result, C strings as character sequences that end at their first NUL,
  and wrap-around helpers for C's fixed-width integers.
- **MString** (`src/mstring.h`): digit tests, number to text and back
  (`maug_itoa`/`utoa`/`ztoa`, `maug_atou32`/`atos32`), case folding,
  `maug_tok_str`, Pascal strings and `maug_strchr`/`maug_strrchr`. Each is
  a method over a buffer, proved against a function of the input.
- **MData** (`src/mdata.h`): the growable vector, a class whose count,
  capacity and lock the methods update, and the deduplicating string pool
  of word-aligned entries.
- **MFile** (`src/mfile.h`): the memory-backed file. It has a cursor,
  block and line reads, insert-writes, buffer locking and path
  assignment.
- **MSerial** (`api/serial/asn1/mrapiser.h`): the ASN.1 integer and length
  encoders, and the header/footer pair that back-patches a length.
- **MFmt** (`src/mfmt.h`), **BmpTool** (`tools/bmp.py`) and **IcnTool**
  (`tools/icn.py`): the BMP header checks and palette read. They also
  cover the unpacking of packed pixel rows (bottom-up, with rows padded
  to four bytes), and the two Python readers, whose callbacks and printed
  output are traces.
- **MJson** (`src/mjson.h`), **MParser** (`src/mparser.h`) and
  **MLispP** (`src/mlispp.h`): character-driven parsers over a stack of
  parse states. The JSON parser's callbacks are an event log. The Lisp
  parser builds its AST in a node table.
- **MLispE** (`src/mlispe.h`): the interpreter's data stack and
  environment, with comparison, arithmetic, argument frames and stack
  clean-up.
- **RetroTil** (`src/retrotil.h`): the tilemap JSON state table, the
  buffer layout of a tilemap and its layers, and the smoothing generator.
- **RetroPth** (`src/retropth.h`): A* path finding over open and closed
  lists.
- **LinkTree**, **MHtml** (`src/mhtml.h`) and **RetroHtr**
  (`src/retrohtr.h`): index-linked trees with parent, first-child and
  next-sibling links. New nodes are appended as last children.
- **RetroFlt** (`src/retroflt.h`), **RetroSft** (`src/retrosft.h`),
  **RetroFp** (`src/retrofp.h`) and **Mgl** (`src/mgl.h`): the text-input
  buffer, direction reversal and viewport scrolling. They also cover line
  set-up, the fixed-point sine and cosine table and the GL vertex and
  triangle stacks.
- **Marge** (`src/marge.h`), **RetroFnt** (`src/retrofnt.h`),
  **RetroFon** (`api/font/soft/mrapifon.h`), **RetroAni**
  (`src/retroani.h`) and **RetroGui** (`src/retrogui.h`): argument
  dispatch, font file names and lines, and the soft font layout and
  string metrics. They also cover the animation stack and the GUI
  control table.

Where the C code updates state in place, the model does too: a class with
`modifies` clauses, an array for a fixed buffer, or a `while` loop with
invariants. Each method is proved against a function of its inputs, and
the lemmas beside it prove what the source promises about that function.
Where a source line does not do what its code evidently intends, the model
keeps both the code as written and the intended behaviour. "## Findings"
lists these cases. The rest of the model uses the intended behaviour.

## Model

| member | source | states |
|---|---|---|
| Maug.Strlen | src/mstring.h:757-765 | the length of a C string is the index of its first NUL, or the whole buffer when there is none |
| Maug.EffectiveSize | src/mstring.h:158-160 | a size of 0 means the string's strlen: no NUL before the returned length, and a NUL at it when the text goes on that far; any other size is kept |
| MString.IsNum | src/mstring.h:155-172 | true exactly when every character is a decimal digit, except a leading '-' when signs are allowed; the base is ignored |
| MString.IsFloat | src/mstring.h:176-190 | true exactly when every character is a digit or '.' |
| MString.Digits | src/mstring.h:194-217 | the character count maug_itoa needs: at least 1, one per place value, plus one for a '-' |
| MString.ZDigits | src/mstring.h:221-239 | the size_t counterpart: at least 1 and one per place value |
| MString.Xtoa | src/mstring.h:41-61 | the place values of `num` end where the macro stops writing, preceded by '0' padding up to `digits` characters; the returned index is where the text starts |
| MString.XtoaPlaces | src/mstring.h:43-53 | the first loop writes exactly the place values of `num`, leftwards, and leaves everything else alone |
| MString.XtoaPad | src/mstring.h:55-60 | the second loop writes exactly `digits - done` '0' characters before what is already written |
| MString.Itoa | src/mstring.h:243-271 | the buffer holds the sign, the digits with no leading zeros and a NUL; the result is the text length |
| MString.Utoa | src/mstring.h:276-296 | the buffer holds the digits of the uint32_t and a NUL; the result is the text length |
| MString.Ztoa | src/mstring.h:300-320 | as Utoa, sized by ZDigits |
| MString.Atou32 | src/mstring.h:324-348 | the result is the uint32_t value of the leading run of accepted digits, wrapped modulo 2^32 |
| MString.Atos32 | src/mstring.h:352-377 | a leading '-' negates, decimal digits accumulate with int32_t wrap-around, any other character stops |
| MString.Atos32Scan | src/mstring.h:359-373 | the scanning loop's accumulator is the int32_t value of the digit run it has consumed |
| MString.UtoaAtou32RoundTrip | src/mstring.h:276-296 | reading back what maug_utoa writes, in any base from 2 to 36, gives the original number |
| MString.ItoaAtos32RoundTrip | src/mstring.h:243-271 | reading back maug_itoa's decimal text of any int32_t gives the original number |
| MString.ItoaAtos32Negative | src/mstring.h:352-377 | the negative half of the round trip: '-' and the magnitude's digits read back as the negative number |
| MString.StrUpper | src/mstring.h:414-422 | the first `line_sz` bytes have 'a'..'z' moved to 'A'..'Z', and nothing else changes |
| MString.StrLower | src/mstring.h:426-434 | the first `line_sz` bytes have 'A'..'Z' moved to 'a'..'z', and nothing else changes |
| MString.UpperChangesOnlyLowerCase | src/mstring.h:414-422 | upper-casing changes exactly the lower-case letters and is idempotent |
| MString.LowerAfterUpper | src/mstring.h:414-434 | lower-casing after upper-casing equals lower-casing the original |
| MString.TokStr | src/mstring.h:438-497 | OK with field `idx` copied and NUL-terminated exactly when that field exists and fits; MERROR_OVERFLOW otherwise. On overflow `out` holds the first out_sz - 1 characters of the field with no NUL, or nothing new when the field is absent; nothing past what was written changes |
| MString.TokCopied | src/mstring.h:452-490 | what the copy loop leaves in `out`: the field, cut to fewer than out_sz characters |
| MString.TokCut | src/mstring.h:477-489 | when the loop stops because `out` is full, what it has copied is the field's first out_sz - 1 characters |
| MString.FieldsGrow | src/mstring.h:452-490 | reading further only appends fields, so a field once closed is final |
| MString.TokMissing | src/mstring.h:438-497 | a text with at most `idx` fields has no field `idx` |
| MString.StrNCopyInto | src/mstring.h:141 | strncpy copies up to the terminator and fills the rest of the `k` bytes with NUL |
| MString.StrNCopyWhole | src/mstring.h:141 | a text shorter than `k` is copied whole, terminator included |
| MString.StrC2P | src/mstring.h:696-717 | byte 0 holds strlen as int8_t and the text follows; MERROR_OVERFLOW when the text does not fit or exceeds 127 |
| MString.C2PPayload | src/mstring.h:696-717 | when the text fits, the payload after the length byte is the text and its terminator |
| MString.Strchr | src/mstring.h:723-736 | the first index of `c` before the terminator, or none; the terminator itself is never found |
| MString.Strrchr | src/mstring.h:740-753 | the last index of `c` up to and including the terminator, so NUL finds the terminator |
| MString.HexCharToIntAsWrittenMisreadsNine | src/mstring.h:63-64 | as written, '9' decodes to 2 |
| MString.HexCharToIntAsWritten | src/mstring.h:63-64 | maug_hctoi as written: '0'..'8' give their value, 'A'..'F' and 'a'..'f' give 10..15, and '9' gives 2 |
| MString.HexCharToInt | src/mstring.h:63-64 | corrected decoding of one hex digit |
| MString.HexCharToIntInvertsDigitChar | src/mstring.h:63-64 | every hex digit maug_xtoa writes decodes back to its place value |
| MData.Vector.constructor | src/mdata.h:19-27 | a zeroed vector: no buffer, no items, unlocked |
| MData.Vector.Alloc | src/mdata.h:460-497 | a locked vector is refused with MERROR_ALLOC; otherwise the buffer is created with `ct_init` slots or doubled when at most one slot is free, and the items are kept |
| MData.Vector.Lock | src/mdata.h:76-79 | locking exposes the buffer; a vector with no buffer yields MERROR_ALLOC |
| MData.Vector.Unlock | src/mdata.h:81-85 | unlocking releases the exposed buffer and changes nothing else |
| MData.Vector.Append | src/mdata.h:320-356 | the item lands at the old count, which is returned, and every earlier item is kept; a NULL item stores nothing |
| MData.Vector.Remove | src/mdata.h:360-399 | MERROR_ALLOC when locked, MERROR_OVERFLOW when `idx >= ct`; otherwise exactly item `idx` is removed and the rest keep their order |
| MData.Vector.GetVoid | src/mdata.h:403-416 | the item at `idx`, or NULL exactly when `idx >= ct` |
| MData.Vector.GetLast | src/mdata.h:90-93 | the last item, or NULL for an empty vector |
| MData.Vector.RemoveLast | src/mdata.h:95-97 | removes the last item, or MERROR_OVERFLOW when empty |
| MData.ShiftDown | src/mdata.h:382-390 | the copy loop moves every item after `idx` down one slot and leaves the others |
| MData.AppendEach | check/chkmdat.c:40-46 | appending values one by one stores them in order after the existing items |
| MData.EntrySizeAligned | src/mdata.h:206-277 | every pool entry is a whole number of size_t words with room for the size header, the text and its NUL |
| MData.OffsetAppend | src/mdata.h:206-277 | appending an entry leaves every earlier entry's offset as it was |
| MData.OffsetGrows | src/mdata.h:112-164 | the offsets the entry walk visits grow strictly |
| MData.StrPool.constructor | src/mdata.h:19-27 | an empty pool |
| MData.StrPool.Find | src/mdata.h:112-164 | the offset of the first entry whose text equals `str` within `len + 1` characters, or -1 when there is none |
| MData.StrPool.Alloc | src/mdata.h:281-308 | a new buffer has exactly `alloc_sz` bytes; an existing one is doubled until it exceeds `str_sz + alloc_sz`; the contents are kept |
| MData.StrPool.Append | src/mdata.h:206-277 | an equal string already in the pool is returned as is; otherwise a new aligned entry holding the text is added at the end and the offset of its text is returned |
| MData.StringFromOffset | src/mdata.h:112-164 | the offset of entry `k` identifies entry `k` |
| MData.AppendedStringReadsBack | src/mdata.h:206-277 | the offset Append returns names an entry whose text equals the appended string |
| MFile.MemFile.ReadBlock | src/mfile.h:421-442 | corrected read: a block that starts at or runs past the end is refused with MERROR_FILE; otherwise its bytes are copied and the cursor advances by its size |
| MFile.ReadBlockAsWrittenSpan | src/mfile.h:421-442 | as written, only the start is checked against the size |
| MFile.ReadBlockAsWrittenOverReads | src/mfile.h:421-442 | as written, a two-byte read from the last byte of an eight-byte buffer is accepted and reads index 8 |
| MFile.MemFile.ReadByte | src/mfile.h:415-417 | a one-byte block read, returning that byte |
| MFile.MemFile.HasBytes | src/mfile.h:377-379 | the bytes left: the cursor plus the result is the data size, and the result is negative exactly when the cursor is past the end |
| MFile.MemFile.Seek | src/mfile.h:446-458 | the cursor moves to `pos` and the result is MERROR_OK |
| MFile.MemFile.ReadLine | src/mfile.h:462-492 | the buffer holds the characters up to the first newline, the end of data or `buffer_sz - 1` characters, NUL-terminated, and the cursor moves past what was read |
| MFile.LineLength | src/mfile.h:462-492 | the number of characters a line read keeps, characterised by where the first newline is |
| MFile.MemFile.WriteBlock | src/mfile.h:517-560 | an empty write changes nothing and a read-only file yields MERROR_FILE; otherwise the block is inserted at the cursor, later bytes move right (those past the size are lost) and the cursor moves past the block |
| MFile.InsertBytes | src/mfile.h:535-550 | the memmove and memcpy leave the old prefix, then the block, then the displaced bytes, cut at the size |
| MFile.WriteThenReadBack | check/chkmfil.c:44-66 | for any data, a block written at `pos` reads back unchanged from `pos` and the bytes it displaced follow it |
| MFile.LockBuffer | src/mfile.h:564-600 | a memory file over exactly one of a handle or a pointer, at cursor 0; both or neither yields MERROR_FILE |
| MFile.SnprintfText | src/mstring.h:676-678 | what maug_snprintf with "%s" stores: at most `sz` characters of the text, and a NUL exactly when the text is shorter than `sz` |
| MFile.SnprintfString | src/mstring.h:546-555 | the character loop of maug_vsnprintf stores exactly that text from index 0, stops once `sz` characters are stored, and leaves the rest of the buffer alone |
| MFile.AssignPathAsWrittenUnterminated | src/mfile.h:303-319 | as written, a source of MAUG_PATH_SZ_MAX or more characters fills the first MAUG_PATH_SZ_MAX target bytes with no NUL, where the corrected copy keeps MAUG_PATH_SZ_MAX - 1 characters; a shorter source is copied the same way by both |
| MFile.AssignPath | src/mfile.h:303-319 | corrected: the target holds at most MAUG_PATH_SZ_MAX - 1 characters of the source, always NUL-terminated and, with TRIM_EXT, cut at its last '.'; the bytes past the copied text are untouched |
| MFile.AssignedPath | src/mfile.h:303-319 | the text assigned: the copied prefix, cut before its last '.' when trimming |
| MFile.CutAtLastDot | src/mfile.h:310-315 | the NUL replaces the last '.' maug_strrchr finds, and nothing else changes |
| MFile.TrimAt | src/mfile.h:310-315 | the last '.' found marks where the extension is cut |
| MSerial.BigEndian | api/serial/asn1/mrapiser.h:12-34 | the bytes written are those of `v`, most significant first |
| MSerial.DecodeBigEndian | api/serial/asn1/mrapiser.h:12-34 | reading the written bytes back, most significant first, gives the value whenever it fits |
| MSerial.GetIntSz | api/serial/asn1/mrapiser.h:38-56 | 1 up to 0x7f (every negative value included), otherwise the fewest bytes that hold the value |
| MSerial.GetIntSzFits | api/serial/asn1/mrapiser.h:38-56 | every non-negative value below 2^32 fits in the byte count it is given |
| MSerial.SzBytes | api/serial/asn1/mrapiser.h:60-78 | a length up to 127 is one byte; a longer one is 0x80 plus its byte count, then its bytes |
| MSerial.SzBytesDecodes | api/serial/asn1/mrapiser.h:60-78 | what is written is a definite length of section 8.1.3 of ITU-T X.690 and a reader gets the size back |
| MSerial.IntBytes | api/serial/asn1/mrapiser.h:82-123 | corrected integer: tag 0x02 (0x42 when negative), the length, then the magnitude big-endian in as many bytes as it needs |
| MSerial.IntBytesDecodes | api/serial/asn1/mrapiser.h:82-123 | every 32-bit integer written reads back, whatever follows it |
| MSerial.IntBytesAsWritten | api/serial/asn1/mrapiser.h:86-104 | as written, the size is taken before the negation, so a negative value gets one byte |
| MSerial.IntBytesAsWrittenLosesNegative | api/serial/asn1/mrapiser.h:86-104 | as written, -300 becomes 42 01 2c and reads back as -44 |
| MSerial.IntBytesOne | api/serial/asn1/mrapiser.h:41-43 | a value up to 0x7f takes one value byte |
| MSerial.IntBytesTwo | api/serial/asn1/mrapiser.h:45-46 | a value from 0x80 to 0xffff takes two value bytes |
| MSerial.Placed | api/file/unix/mrapifil.h:247-340 | what a run of unix writes leaves when the first is one byte at the cursor: that byte goes in at the cursor and the rest is appended at the end of the file |
| MSerial.PlacedAtEnd | api/file/unix/mrapifil.h:267-308 | at the end of the file the writes append, as a true insert would |
| MSerial.PlacedOne | api/file/unix/mrapifil.h:267-327 | a single byte written before the end is a true insert |
| MSerial.PlacedAppend | api/file/unix/mrapifil.h:310-327 | once the position stands at the end of the file, further writes append |
| MSerial.SerialFile.WriteBlock | api/file/unix/mrapifil.h:247-340 | the block goes in at the cursor and the rest of the file moves up behind it; the position is left at the end of the file, which is the block's end only when the write started there |
| MSerial.SerialFile.Seek | src/mfile.h:446-458 | the cursor moves and the contents stay |
| MSerial.IntValue | api/serial/asn1/mrapiser.h:12-34 | the first byte of BigEndian(value, value_sz) goes in at the cursor and the rest at the end of the file; written at the end, the bytes are appended in order |
| MSerial.AsnSz | api/serial/asn1/mrapiser.h:60-78 | the first byte of SzBytes(sz) goes in at the cursor and the rest at the end of the file; a short-form length (up to 127) is a true insert, and then or when written at the end a reader of X.690 definite lengths at the old cursor gets `sz` back |
| MSerial.AsnInt | api/serial/asn1/mrapiser.h:82-123 | the tag of IntBytes(value) goes in at the cursor and the rest at the end of the file; written at the end, the encoding is appended |
| MSerial.Header | api/serial/asn1/mrapiser.h:159-179 | an object inserts the sequence tag 0x30 and a string the string tag 0x16, and the position, left at the end of the file, is returned; any other type writes nothing and returns 0 |
| MSerial.FooterAsWritten | api/serial/asn1/mrapiser.h:183-208 | as written, a header of 0 changes nothing; otherwise the length's first byte goes in at the header and the rest after the contents; a length up to 127 is inserted whole |
| MSerial.FooterAsWrittenMisplacesLength | api/serial/asn1/mrapiser.h:183-208 | as written, a 128-byte sequence gets 82 after its tag and 00 80 after its contents, and a reader at the header gets length 0 instead of 128 |
| MSerial.Footer | api/serial/asn1/mrapiser.h:183-208 | corrected: a header of 0 changes nothing; otherwise the whole length of everything after the header is inserted there, reads back there, the contents follow it unchanged, and the cursor returns to the end |
| MSerial.VectorInt | api/serial/asn1/mrapiser.h:127-155 | the items' encodings follow each other in order, with nothing around them |
| MSerial.WriteInts | api/serial/asn1/mrapiser.h:144-150 | the loop appends each item's encoding in turn |
| MSerial.IntsBytesAppend | api/serial/asn1/mrapiser.h:144-150 | writing one more item appends its bytes and changes nothing before them |
| MSerial.InsertedTwice | src/mfile.h:517-560 | with the memory file's write_block, which leaves the cursor after the block, two inserts at consecutive cursors equal one insert of both blocks |
| MFmt.LEOfLEBytes | src/mfmt.h:64-127 | reading little-endian bytes back gives the value written when it fits |
| MFmt.ReadBmpHeader | src/mfmt.h:64-127 | the caller's header must be the 40-byte info header and the size read from the file 40, at most 8 bits per pixel and uncompressed; otherwise MERROR_FILE. A file too short to hold the size field is refused; a field cut off by the end of the file keeps the caller's value (width, height, palette size); a complete header gives int32_t width and height |
| MFmt.ReadInfoHeader | src/mfmt.h:64-127 | a well-formed info header anywhere in the file, followed by anything, reads back field by field; more than 8 bits per pixel is refused |
| MFmt.ReadBmpPalette | src/mfmt.h:129-161 | corrected palette read: a header that is not 40 bytes gives MERROR_FILE; otherwise MERROR_OK exactly when every colour fits in the buffer, else MERROR_OVERFLOW. Every entry that fits is read, and one past the end of the file keeps its old value with MERROR_OK; nothing else is written |
| MFmt.PaletteStoresAsWritten | src/mfmt.h:145-150 | as written, the loop stops only once `i * 4 > palette_sz`, one entry too late |
| MFmt.PaletteAsWrittenOverflows | src/mfmt.h:145-150 | as written, three colours into an 8-byte buffer store all three, the third past the end |
| MFmt.BmpRow | src/mfmt.h:187-246 | output row `y` comes from stored row `height - 1 - y`, because rows are stored bottom-up |
| MFmt.BmpRowIs | src/mfmt.h:187-246 | an output row is the first `width` pixels unpacked from its stored row |
| MFmt.StrideCovers | src/mfmt.h:237-240 | a padded row holds its bytes and is a multiple of four |
| MFmt.ByteMask | src/mfmt.h:205-209 | the mask loop sets the top `bpp` bits |
| MFmt.PadToFour | src/mfmt.h:237-239 | the padding loop stops at the next multiple of four |
| MFmt.TakePixel | src/mfmt.h:212-229 | one pixel is the bits under the mask shifted down, and the mask and bit position move on by `bpp` |
| MFmt.NextPixel | src/mfmt.h:193-229 | a fresh byte is read when the last one is used up, then its next pixel is taken |
| MFmt.NextPosition | src/mfmt.h:232-241 | after a pixel: the next column, or at a row's end the next stored row with the byte index padded and the bit position cleared |
| MFmt.ReadOne | src/mfmt.h:189-242 | one pass of the pixel loop keeps the reading invariant |
| MFmt.ReadPixels | src/mfmt.h:187-242 | when the loop ends every output row holds its stored row's pixels and nothing past the image changed |
| MFmt.ReadBmpPx | src/mfmt.h:163-254 | corrected reader: a header that is not 40 bytes gives MERROR_FILE; otherwise `px` holds the image, output row `y` at `y * width` |
| MFmt.ReadPxAsWritten | src/mfmt.h:187-242 | the loop as written, where the bit position carries over from one row to the next |
| MFmt.BitIdxNotReset | src/mfmt.h:232-241 | as written, a 1-bit image one pixel wide and two rows high gets 0 where the image has 1 |
| Marge.Truncate | src/marge.h:228-229 | a name or help text is cut at its NUL and at the field size |
| Marge.FindArg | src/marge.h:135-147 | the first option at or after `j` whose name matches the argument |
| Marge.Step | src/marge.h:128-174 | a matching option is called and becomes the last one; then the last option is called with the same entry unless the first call failed |
| Marge.ParseFrom | src/marge.h:128-174 | the argv loop stops at the first failing callback and its result is the return value |
| Marge.Defaults | src/marge.h:180-204 | every option never called and whose callback is not NULL gets ("", -1) in order, stopping at the first failure; an option without a callback is skipped |
| Marge.Parsed | src/marge.h:118-213 | the calls stop at the first error and, after a clean argv loop, every uncalled option with a callback got its default call |
| Marge.NoCallbackNoDefault | src/marge.h:188-192 | an uncalled option registered with a NULL callback gets no default call, while one with a callback does |
| Marge.MatchedCalledTwice | src/marge.h:135-173 | an argument that matches an option reaches that option's callback twice, with counts 1 and 2 |
| Marge.UnmatchedGoesToLast | src/marge.h:163-173 | an argument matching no option is passed to the last matched option with the next count |
| Marge.ArgStep | src/marge.h:128-174 | the method's pass over one entry equals Step |
| Marge.DefaultCalls | src/marge.h:180-204 | the method's default loop, which skips NULL callbacks, equals Defaults |
| Marge.Cli.AddArg | src/marge.h:217-244 | one option is appended, with `called` 0, name and help cut to their field sizes, and whether its callback is NULL recorded |
| Marge.Cli.ParseArgs | src/marge.h:118-213 | the options and the calls made equal Parsed over argv |
| BmpTool.PyFile.Seek | tools/bmp.py:13 | a negative position raises; any other becomes the file position |
| BmpTool.PyFile.Read | tools/bmp.py:16 | at most `n` bytes from the position, which moves past them |
| BmpTool.ReadHeader | tools/bmp.py:12-36 | size, pixel offset, header size, width and height are the little-endian words at offsets 2, 10, 14, 18 and 22, zero-filled past the end |
| BmpTool.FieldAtFull | tools/bmp.py:16 | a field read from a file long enough to hold it is its four bytes, little-endian |
| BmpTool.Bitmap.constructor | tools/bmp.py:8-38 | the bitmap's fields are the header words ReadHeader reads |
| BmpTool.Bitmap.Pixels | tools/bmp.py:40-53 | the callbacks see, for each display row, the `width` bytes of stored row `height - 1 - y` and then `y` |
| BmpTool.ReadRow | tools/bmp.py:50-52 | the inner loop reports `width` single bytes from the row's start, 0 past the end |
| BmpTool.TraceLength | tools/bmp.py:42-53 | `n` rows give `width + 1` events each, `width` of them pixels |
| BmpTool.TraceAt | tools/bmp.py:46-53 | event `x` of display row `y` is pixel `x` of stored row `height - 1 - y`, read with no row padding, and the last event is the row callback |
| BmpTool.CellShape | tools/bmp.py:77-78 | a zero pixel prints as blank padding as wide as the cell of a non-zero index below 16; a non-zero pixel prints in hexadecimal |
| IcnTool.ReadByte | tools/icn.py:59 | the byte at the position, or 0 at the end of the file |
| IcnTool.ReadRow | tools/icn.py:58-63 | one cell per pixel of the row, blank for 0 and hexadecimal otherwise |
| IcnTool.PrintRows | tools/icn.py:51-64 | for y in 0..15 the stored row `h - 1 - y` is printed, cell by cell, then a newline; fewer rows only when a seek raised |
| IcnTool.RowsNewlines | tools/icn.py:64 | the text of `n` rows holds exactly `n` line breaks |
| IcnTool.SixteenRows | tools/icn.py:51 | an image at least 16 rows high prints exactly 16 lines |
| IcnTool.RaisesOnlyPastImage | tools/icn.py:55 | the seek raises only for a row past the image |
| MJson.Appended | src/mjson.h:49-50 | the character is appended to the token, and nothing else changes |
| MJson.OnCloseObj | src/mjson.h:104-126 | in an object value the token is parsed, value and key are popped and the close callback is made |
| MJson.OnComma | src/mjson.h:187-216 | in an object value the token is parsed and a new key begins; in a list the token is parsed and the list goes on |
| MJson.Step | src/mjson.h:64-249 | the state after one character, and the result; a failing token parser stops the character |
| MJson.StepNested | src/mparser.h:13-28 | every character keeps the stack nested, so the two pops of '}' and ',' always find a key below the value and the stack stays in its array |
| MJson.StepRejects | src/mparser.h:30-33 | a character is rejected with error 1 and nothing changed exactly when it is invalid in the current state |
| MJson.StringsVerbatim | src/mjson.h:64-76 | inside a string every character but the quote is appended as is; outside one, whitespace changes nothing |
| MJson.ObjectWithList | src/mjson.h:64-249 | an object holding a list of two strings: the token parser sees the key, then each item, then the empty token left when the list closes, and the stack ends empty |
| MJson.JsonParser.Push | src/mjson.h:37-38 | one state on top |
| MJson.JsonParser.Pop | src/mjson.h:40-41 | the top state removed |
| MJson.JsonParser.AppendToken | src/mjson.h:49-50 | one character appended to the token |
| MJson.JsonParser.ParseToken | src/mjson.h:52-54 | the token parser is called with the token, recorded as an event, and its result returned |
| MJson.JsonParser.ParseOpenObj | src/mjson.h:78-103 | the parser moves as Step does on '{' |
| MJson.JsonParser.ParseOpenList | src/mjson.h:127-147 | the parser moves as Step does on '[' |
| MJson.JsonParser.ParseCloseObj | src/mjson.h:104-126 | the parser moves as Step does on '}' |
| MJson.JsonParser.ParseCloseList | src/mjson.h:148-169 | the parser moves as Step does on ']' |
| MJson.JsonParser.ParseQuote | src/mjson.h:170-186 | the parser moves as Step does on '"' |
| MJson.JsonParser.ParseComma | src/mjson.h:187-216 | the parser moves as Step does on ',' |
| MJson.JsonParser.ParseColon | src/mjson.h:217-235 | the parser moves as Step does on ':' |
| MJson.JsonParser.ParseC | src/mjson.h:64-249 | the state moves as Step says, the stack stays nested and within its array, and `last_c` becomes `c` |
| RetroTil.MatchFirst | src/retrotil.h:586-669 | the table search finds the first row whose key, parent and mode all agree, and -1 only when there is none |
| RetroTil.MatchedMeaning | src/retrotil.h:586-669 | a key moves the parser exactly when some state has that key, the current state as parent and the current mode; it moves to the first such state; otherwise the state stays |
| RetroTil.ParentsBefore | src/retrotil.h:353-380 | no state of the table is its own parent |
| RetroTil.RepeatShadowed | src/retrotil.h:586-669 | a row that repeats an earlier row is never found |
| RetroTil.TilesetsPropUnreachable | src/retrotil.h:353-380 | TILESETS_PROP repeats TILESETS_FGID's key, parent and mode, so no key leads to it |
| RetroTil.ClosesGoUp | src/retrotil.h:1108-1183 | closing a list or an object returns to the parent the state table gives the closed state; any other close changes nothing |
| RetroTil.KeyThenClose | src/retrotil.h:586-669 | a key that opens a list or object, then its close, return the parser to the state before the key |
| RetroTil.LayerCycle | src/retrotil.h:1108-1183 | '{' in the layer list, the "data" key, the ']' after the tiles and the '}' after the layer bring the parser back to the layer list |
| RetroTil.PropType | src/retrotil.h:1187-1199 | "string" is 1, "file" 2, "int" 3 and anything else 0, each in both directions |
| RetroTil.TileParser.constructor | src/retrotil.h:1254 | the zeroed parser in the given mode and pass; the layer class starts as RETROTILE_CLASS_TILE (0) |
| RetroTil.TileParser.MatchToken | src/retrotil.h:586-669 | the new state is the one Matched gives, and nothing else changes |
| RetroTil.TileParser.CloseList | src/retrotil.h:1108-1144 | LAYER_DATA goes to LAYER and TILES_PROP to TILES; LAYERS, TILESETS, TILES, PROP and TPROP go to NONE; nothing else changes |
| RetroTil.TileParser.OpenObj | src/retrotil.h:1148-1160 | an object opened in the layer list is a layer, and its tile count restarts at 0 |
| RetroTil.TileParser.CloseObj | src/retrotil.h:1164-1183 | closing a layer counts it and returns to the layer list; closing the grid returns to NONE |
| RetroTil.TileParser.ListToken | src/retrotil.h:917-983 | on the second pass in layer data the parser's layer class is stored in the current layer's header and the value as an int16_t at the next tile; a tile past the layer is MERROR_OVERFLOW with the class stored but no tile; any other list token is only counted and leaves the headers as they were |
| RetroTil.TileParser.ClassToken | src/retrotil.h:1050-1067 | the layer class becomes RETROTILE_CLASS_MOBILE exactly when the token is "mobile", RETROTILE_CLASS_TILE otherwise, and the parser returns to the layer state |
| RetroTil.LayoutAt | src/retrotil.h:2237-2243 | each layer header written stays where it was written |
| RetroTil.WalkLayout | src/retrotil.h:2170-2193 | stepping over written layers by their total_sz from layer `j` reaches layer `j + k` |
| RetroTil.LayoutFillsBuffer | src/retrotil.h:2207-2243 | the layers fill the buffer exactly: layer `i` starts after the header and `i` whole layers, lies inside the buffer, and stepping over all of them ends at the buffer's size |
| RetroTil.Tilemap.GetLayerP | src/retrotil.h:2170-2193 | NULL when there are no layers or the index is past the last; otherwise the offset reached by stepping over the earlier layers |
| RetroTil.Tilemap.Alloc | src/retrotil.h:2197-2252 | the sizes, counts, names and every layer header are set, the tile scale is RETROTILE_TILE_SCALE_DEFAULT (1.0), and the total size is stored as a uint32_t |
| RetroTil.NoSidesAlone | src/retrotil.h:1964-1990 | a tile has no neighbour on the map exactly when the map is a single tile |
| RetroTil.SmoothCellAsWritten | src/retrotil.h:1959-1992 | as written, the neighbour sum is divided by the neighbour count, with no value when that count is 0 |
| RetroTil.LoneTileDividesByZero | src/retrotil.h:1992 | as written, a map of one tile divides by zero |
| RetroTil.SmoothCell | src/retrotil.h:1959-1992 | corrected cell: the neighbours' average rounded toward zero, and the tile kept when it has none |
| RetroTil.SidesBounds | src/retrotil.h:1964-1990 | the neighbour sum lies between the count times the smallest and times the largest tile |
| RetroTil.SmoothCellBounds | src/retrotil.h:1992 | a smoothed tile stays within the bounds of the layer's tiles |
| RetroTil.RowsSmoothedInRange | src/retrotil.h:1953-1994 | smoothing keeps every tile of the layer within the bounds it started in |
| RetroTil.FlatLayerUnchanged | src/retrotil.h:1953-1994 | a flat layer comes out of smoothing unchanged |
| RetroTil.RowSmoothedOnlyRow | src/retrotil.h:1958-1993 | smoothing part of a row changes no tile before that row, after it, or after that part |
| RetroTil.RowsSmoothedOnlyRows | src/retrotil.h:1953-1994 | smoothing the first rows leaves the later rows unchanged |
| RetroTil.FirstFailRow | src/retrotil.h:1953-1957 | the first row whose animation callback fails, or the height when none does |
| RetroTil.CellValue | src/retrotil.h:1960-1992 | the side loop's result is SmoothCell of the tile |
| RetroTil.SmoothRow | src/retrotil.h:1958-1993 | the row's tiles are smoothed left to right, each from the values already written |
| RetroTil.GenSmoothIter | src/retrotil.h:1935-1999 | the rows before the first failing callback are smoothed in order and the rest kept; the result is that callback's error, or MERROR_OK |
| MLispE.NumAsInt | src/mlispe.h:575-582 | a number compares as its value cast to int (a float toward zero, a boolean as its stored value); any other type is refused |
| MLispE.PopSpec | src/mlispe.h:205-244 | popping an empty stack is MERROR_OVERFLOW with nothing taken; otherwise the top node and the rest of the stack |
| MLispE.PopUndoesPush | src/mlispe.h:179-244 | popping right after a push gives back the value and the stack before it |
| MLispE.LatestNamed | src/mlispe.h:326-351 | the newest node bearing the name, or none: no later node bears it |
| MLispE.BindingShadows | src/mlispe.h:326-351 | a new binding shadows every older binding of its name and leaves every other name's lookup unchanged |
| MLispE.LatestFrame | src/mlispe.h:453-502 | the newest node that opens an argument frame, or none |
| MLispE.FirstArgsEnd | src/mlispe.h:506-559 | the first node from `i` on that closes an argument frame, or none |
| MLispE.Pruned | src/mlispe.h:506-559 | the nodes from the current frame's ARGS_S through the first ARGS_E after it are gone, and the others keep their order |
| MLispE.PruneRestoresEnv | src/mlispe.h:506-559 | opening a frame, binding plain arguments, closing it and pruning gives back the environment from before the frame |
| MLispE.CmpTruth | src/mlispe.h:605-619 | greater-than wins over less-than over equality, and no comparison flag is an error |
| MLispE.CmpOnNumbers | src/mlispe.h:563-628 | on two numbers on top, a comparison replaces them with its truth, and fails with MERROR_EXEC exactly when no comparison flag is set |
| MLispE.GtIsSwappedLt | src/mlispe.h:605-612 | greater-than with the operands swapped is less-than |
| MLispE.CmpUnderflow | src/mlispe.h:575-577 | a comparison on a stack with fewer than two nodes fails with MERROR_OVERFLOW |
| MLispE.ArithStep | src/mlispe.h:645-658 | one popped value folded in: added with the add flag, else multiplied with the multiply flag, else ignored; a non-numeric value is refused |
| MLispE.ArithOnNumbers | src/mlispe.h:632-683 | on two numbers on top, the top one then the one below are folded into the start value and both are replaced by the int16_t result |
| MLispE.AddInts | src/mlispe.h:632-683 | adding two ints pushes their int16_t sum, in either order |
| MLispE.MulInts | src/mlispe.h:632-683 | multiplying two ints pushes their int16_t product, in either order |
| MLispE.ArithRejects | src/mlispe.h:667-673 | a non-numeric value on top makes the builtin fail with MERROR_EXEC after popping it |
| MLispE.LatestBegin | src/mlispe.h:1184-1208 | the newest BEGIN marker for `n_idx`, or none |
| MLispE.CleanupRestores | src/mlispe.h:1184-1208 | cleanup takes away a BEGIN marker and whatever was pushed after it, and nothing below it |
| MLispE.Exec.Push | src/mlispe.h:179-199 | the value becomes the top of the stack |
| MLispE.Exec.Pop | src/mlispe.h:205-244 | the stack and result follow PopSpec |
| MLispE.Exec.EnvGet | src/mlispe.h:326-351 | the walk from the end returns the newest binding of the name, as LatestNamed |
| MLispE.Exec.EnvSet | src/mlispe.h:355-441 | a binding of a storable type (1 to 8) is appended with its flags; any other type is MERROR_EXEC and nothing changes |
| MLispE.Exec.EnvFrame | src/mlispe.h:453-502 | the newest ARGS_S node, or 0 when there is none |
| MLispE.Exec.PruneArgs | src/mlispe.h:506-559 | the environment becomes Pruned of the old one, removing one node at a time |
| MLispE.Exec.Cmp | src/mlispe.h:563-628 | the stack and result follow the comparison's specification |
| MLispE.Exec.Arithmetic | src/mlispe.h:632-683 | the stack and result follow the arithmetic builtin's specification |
| MLispE.Exec.StackCleanup | src/mlispe.h:1184-1208 | nodes are popped up to and including the BEGIN marker for `n_idx`, or until the stack is empty |
| MLispP.NewNode | src/mlispp.h:110-125 | a new node has the cursor as parent, all ten child slots -1, no children and no token |
| MLispP.SlotSearchAsWritten | src/mlispp.h:139-145 | as written, the slot search walks until it meets a -1, with no bound |
| MLispP.FullParentOverruns | src/mlispp.h:139-148 | as written, with all ten slots taken the search ends at index 10, past the array, where the new child is written |
| MLispP.FreeSlotFrom | src/mlispp.h:139-145 | the first free slot from `k`, or none when every slot is taken |
| MLispP.AddChildAst | src/mlispp.h:110-177 | corrected: no node is added when the parent is full; otherwise one node is appended and the parent's first free slot names it |
| MLispP.AddChildKeepsTree | src/mlispp.h:110-177 | adding fails exactly when the parent has ten children; otherwise the tree stays well-formed, the new node is the parent's last child at depth one more, and earlier parents are kept |
| MLispP.TokenFlag | src/mlispp.h:200-228 | a token exactly "lambda", "if", "begin" or "define" sets its flag, and any other token none |
| MLispP.SetTokenAst | src/mlispp.h:181-249 | the node under the cursor takes the token and its flag, and keeps its parent |
| MLispP.SetTokenKeepsTree | src/mlispp.h:181-249 | setting a token keeps the tree well-formed and every node's children |
| MLispP.RawTokenLeaf | src/mlispp.h:280-299 | a raw token fails exactly when the cursor's node is full; otherwise it is a new leaf holding the token, the last child of the cursor's node, and the cursor stays |
| MLispP.InitValid | src/mlispp.h:588-621 | the initial parser, cursor -1 and nothing parsed, satisfies the parser invariant |
| MLispP.StepKeepsValid | src/mlispp.h:365-548 | every character that has room on the state stack keeps the invariant: a well-formed tree, the cursor at the depth of the open parentheses, and a token whenever one is pending |
| MLispP.OpenThenClose | src/mlispp.h:465-522 | "(" then ")" adds one empty child under the cursor and restores the cursor, the state stack and the empty token |
| MLispP.CommentThenNewline | src/mlispp.h:391-397 | ';' then a newline leave the state stack as it was |
| MLispP.CommentSkips | src/mlispp.h:530-534 | inside a comment an ordinary character changes nothing but the counters |
| MLispP.ParenInComment | src/mlispp.h:465-522 | a parenthesis inside a comment is rejected with error 1 |
| MLispP.OperatorNamed | src/mlispp.h:400-432 | whitespace after the first symbol in parentheses names the node and moves on to arguments |
| MLispP.LambdaArgsOpen | src/mlispp.h:470-475 | '(' right after "lambda" opens the argument list |
| MLispP.FullNodeOverflows | src/mlispp.h:465-494 | corrected: '(' under a node with ten children stops with MERROR_OVERFLOW and changes only the last character |
| MLispP.Parser.Init | src/mlispp.h:588-621 | the initial parser, with cursor -1, satisfies the invariant |
| MLispP.Parser.AddChild | src/mlispp.h:110-177 | the table and cursor follow AddChildAst: MERROR_OVERFLOW and nothing changed for a full parent, otherwise the new node becomes the cursor |
| MLispP.Parser.SetChildToken | src/mlispp.h:181-249 | the table becomes SetTokenAst of the old one, and nothing else changes |
| MLispP.Parser.TraverseParent | src/mlispp.h:254-275 | the cursor moves to its node's parent, and nothing else changes |
| MLispP.Parser.AddRawToken | src/mlispp.h:280-299 | the parser moves as RawToken says |
| MLispP.Parser.ParseSpace | src/mlispp.h:391-440 | the parser moves as the whitespace case says |
| MLispP.Parser.ParseOpen | src/mlispp.h:465-494 | the parser moves as the '(' case says |
| MLispP.Parser.ParseClose | src/mlispp.h:496-522 | the parser moves as the ')' case says |
| MLispP.Parser.DispatchC | src/mlispp.h:390-535 | the parser moves as the switch says, with its fall-through |
| MLispP.Parser.ParseC | src/mlispp.h:365-548 | the parser moves as Step says, and the invariant holds afterwards |
| MLispP.Parser.PushState | src/mparser.h:13-21 | the new state goes on top of the parse-state stack; nothing else changes |
| MLispP.Parser.PopState | src/mparser.h:23-28 | the top state is taken off the parse-state stack; nothing else changes |
| MLispP.NewlineInCommentKeepsValid | src/mlispp.h:391-397 | a newline inside a comment only pops the comment state, and the parser stays valid |
| MLispP.SpaceKeepsValid | src/mlispp.h:399-440 | whitespace keeps the parser valid |
| MLispP.OpenKeepsValid | src/mlispp.h:465-494 | '(' with room on the state stack keeps the parser valid |
| MLispP.CloseKeepsValid | src/mlispp.h:496-522 | ')' keeps the parser valid, whether or not it is accepted |
| MLispP.OtherKeepsValid | src/mlispp.h:524-535 | any other character with room on the state stack keeps the parser valid |
| MLispP.DepthKept | src/mlispp.h:110-177 | appending nodes that keep the earlier parent links keeps every earlier node's depth |
| LinkTree.Chain | src/mhtml.h:332-340 | the sibling chain from a node lists only indices inside the table |
| LinkTree.LastSibling | src/mhtml.h:333-340 | the walk along next_sibling ends at a node of the table, at or after its start, whose next_sibling is -1 |
| LinkTree.ChainExtended | src/mhtml.h:333-342 | linking the last node of a chain to a new node at the end of the table keeps every link forward and lengthens that chain by exactly the new index |
| LinkTree.AppendedKeepsForward | src/mhtml.h:287-300 | a new node with no children or siblings appended to the table keeps every parent link backward and every child and sibling link forward |
| LinkTree.LastSiblingAppended | src/mhtml.h:333-340 | appending a node that nothing links to leaves every earlier sibling chain ending where it did |
| LinkTree.AddChildAppends | src/mhtml.h:284-359 | adding a child appends one node with parent `p` and no children or siblings, makes it the last of p's children with the earlier children kept in order, changes at most one other node, and keeps all links forward |
| MHtml.LinksOf | src/mhtml.h:126-131 | the table of links has one entry per tag, the tag's own parent, first_child and next_sibling |
| MHtml.NewTag | src/mhtml.h:287-300 | a new tag has parent `parent`, no children or siblings, type NONE, no style and no content |
| MHtml.AppendKeeps | src/mhtml.h:300-320 | appending a tag adds its links at the end of the link table and leaves every other tag as it was |
| MHtml.PushedRoot | src/mhtml.h:300-320 | appending a root tag is AddChild with no parent, keeps the table valid and changes no other tag |
| MHtml.PushedFirstChild | src/mhtml.h:322-331 | setting the parent's first_child to the new tag is AddChild under the parent, keeps the table valid and changes no other field |
| MHtml.PushedLaterChild | src/mhtml.h:332-346 | linking the new tag after the parent's last child is AddChild under the parent, keeps the table valid and changes no other field |
| MHtml.IndexOf | src/mhtml.h:388-415 | a found index is inside the table and names exactly the token |
| MHtml.IndexOfFirst | src/mhtml.h:388-415 | the index found is the first matching name, and no name matches when none is found |
| MHtml.LookupName | src/mhtml.h:388-415 | the lookup loop returns IndexOf: a matching index, or none only when the token is not among the names |
| MHtml.TokenUpper | src/mhtml.h:366 | the token the lookups see has the same length, with every lower-case letter made upper-case and every other character kept |
| MHtml.TagTypes | src/mhtml.h:33-60 | BODY, TEXT and STYLE look up to their table indices and CLASS to attribute 2; the lookup is case-sensitive, and upper-casing turns "body", "Style" and "class" into names that match |
| MHtml.TrimmedLength | src/mhtml.h:473-476 | the trimmed length never exceeds the token's |
| MHtml.TrimmedLengthMeaning | src/mhtml.h:473-476 | everything dropped is a space, the last character kept is not, and a token with a character that is not a space keeps something |
| MHtml.TrimTrailingSpaces | src/mhtml.h:473-476 | the loop stops at TrimmedLength, which is positive for a token that is not all spaces |
| MHtml.HtmlParser.constructor | src/mhtml.h:826-839 | a new parser has no tags, no current tag, no body tag, no pending flags and attribute key NONE |
| MHtml.HtmlParser.PopTag | src/mhtml.h:256-282 | the current tag becomes its parent (-1 at a root); the tags and the rest of the parser are unchanged |
| MHtml.HtmlParser.PushTag | src/mhtml.h:284-359 | the link table becomes AddChild under the current tag (as a root when there is none), the new tag carries the pending flags and becomes current, the flags are cleared and no other tag's data changes |
| MHtml.HtmlParser.LastChild | src/mhtml.h:333-340 | the walk along next_sibling returns LastSibling from the first child |
| MHtml.HtmlParser.PushElementTag | src/mhtml.h:361-425 | the token is upper-cased first; then STYLE only sets the STYLE flag; any other name pushes a tag whose type is the name's index (NONE if unknown), carrying the old flags; the body index becomes the new tag exactly when the name is BODY |
| MHtml.HtmlParser.PushTextTag | src/mhtml.h:427-495 | a tag is pushed; it is a STYLE tag when the STYLE flag was pending, and otherwise a TEXT tag holding the token without its trailing spaces |
| MHtml.HtmlParser.PushAttribKey | src/mhtml.h:497-526 | the token is upper-cased first; then the attribute key becomes the name's index when the name is known and stays unchanged otherwise; nothing else changes |
| RetroHtr.NodeLinks | src/retrohtr.h:50-55 | the table of links has one entry per node, the node's own parent, first_child and next_sibling |
| RetroHtr.NodeLinksUpdate | src/retrohtr.h:340-353 | replacing one node's links replaces that entry of the link table only |
| RetroHtr.NewNode | src/retrohtr.h:320-328 | the new node has parent `parent`, no children or siblings, and the zeroed position and tag |
| RetroHtr.LinkedRoot | src/retrohtr.h:320-338 | appending a root node is AddChild with no parent and keeps every other node |
| RetroHtr.LinkedFirstChild | src/retrohtr.h:340-344 | making the new node the parent's first child is AddChild under the parent and keeps the other nodes' data |
| RetroHtr.LinkedLaterChild | src/retrohtr.h:345-353 | linking the new node after the parent's last child is AddChild under the parent and keeps the other nodes' data |
| RetroHtr.NodeAt | src/retrohtr.h:73 | NULL exactly for a negative index, otherwise the node at that index |
| RetroHtr.NodeParent | src/retrohtr.h:75-77 | NULL exactly for a negative index or a node without a parent; otherwise the parent, which lies before the node |
| RetroHtr.GrownMax | src/retrohtr.h:263-278 | the capacity doubles exactly when it has no room beyond the new node, and afterwards exceeds the count by more than one |
| RetroHtr.Prefix | src/retrohtr.h:925-944 | the part of a sibling chain before the node is a prefix that lacks the node, is followed by the node when shorter, and is the whole chain when the node is absent |
| RetroHtr.PrefixAppend | src/retrohtr.h:925-944 | the prefix of a chain whose head lacks the node keeps that head whole |
| RetroHtr.LastPlacedSnoc | src/retrohtr.h:930-942 | one more sibling seen replaces the answer unless its position is absolute |
| RetroHtr.ChainStep | src/retrohtr.h:942 | following next_sibling moves one node of the chain into the part already seen |
| RetroHtr.LastPlacedMeaning | src/retrohtr.h:930-942 | the result is -1 exactly when every sibling seen is absolute, otherwise the last sibling seen that is not |
| RetroHtr.PrevSiblingMeaning | src/retrohtr.h:913-947 | a root has previous sibling -1; otherwise it is the last of the parent's children before the node whose position is not absolute, or -1; never the node itself |
| RetroHtr.RenderTree.constructor | src/retrohtr.h:1520-1539 | a new tree has no nodes and room for MHTML_PARSER_TAGS_INIT_SZ |
| RetroHtr.RenderTree.GetNextFreeNode | src/retrohtr.h:252-309 | -1 exactly when the table must grow and cannot, with nothing changed; otherwise a zeroed node is appended at the old count, which is returned, and the capacity is GrownMax |
| RetroHtr.RenderTree.LastChild | src/retrohtr.h:346-351 | the walk along next_sibling returns LastSibling from the first child |
| RetroHtr.RenderTree.AddNodeChild | src/retrohtr.h:311-358 | -1 with nothing changed when there is no free node; otherwise the link table becomes AddChild under the parent, the new node is NewNode(parent) and no other node's data changes |
| RetroHtr.RenderTree.FindPrevSibling | src/retrohtr.h:913-947 | the result is PrevSibling of the node |
| RetroHtr.RenderTree.LastPlacedBefore | src/retrohtr.h:925-944 | the loop returns the last sibling before the node, along the chain from `first`, whose position is not absolute |
| RetroFlt.BkspUndoesInsert | src/retroflt.h:803-831 | the insert puts the character at the cursor and lengthens the text by one, and a backspace right after it gives the text back |
| RetroFlt.MoveUp | src/retroflt.h:821-825 | the memmove of the insert: the n characters from `from` move up one slot and the rest of the array is unchanged |
| RetroFlt.MoveDown | src/retroflt.h:805-809 | the memmove of the backspace: the n characters from `from` move down one slot and the rest of the array is unchanged |
| RetroFlt.TextBuffer.Insert | src/retroflt.h:819-831 | with room (sz + 1 < mx) the text becomes the old text with `c` inserted at the cursor, the cursor advances and the text stays NUL-terminated; without room nothing changes |
| RetroFlt.TextBuffer.Bksp | src/retroflt.h:803-814 | with the cursor past the start the character before it is removed, the cursor steps back and the text stays NUL-terminated; at the start nothing changes |
| RetroFlt.Dir8ReverseInvolution | src/retroflt.h:875-882 | reversing a direction 0..7 gives a different direction 0..7, reversing twice gives it back, and RETROFLAT_DIR8_NONE reverses to 3 |
| RetroFlt.Dir8Reverse | src/retroflt.h:881-882 | (dir + 4) % 8 with C's remainder: a result between -7 and 7, four directions round from dir modulo 8, with the sign of dir + 4 |
| RetroFlt.Viewport.constructor | src/retroflt.h:1105-1198 | a zeroed viewport: world and screen positions, sizes and tiles all 0 |
| RetroFlt.Viewport.SetWorld | src/retroflt.h:1240-1244 | the world size becomes (w, h) as stored into int16_t fields (so unchanged for int16_t arguments) and nothing else changes: world position, tile position, screen position, remainders and tile size all stay |
| RetroFlt.Viewport.SetWorldPos | src/retroflt.h:1246-1251 | the world position becomes (x, y) as stored into int16_t fields and the tile position is the argument shifted by the tile bits; for int16_t arguments the tile position agrees with the pixel position; the world size, screen position, remainders and tile size are unchanged |
| RetroFlt.Viewport.SetPosSize | src/retroflt.h:1253-1270 | the screen size is rounded down to whole tiles, within one tile of the requested size, and the remainders hold position plus size less the rounded size; the world fields are unchanged |
| RetroFlt.Viewport.MoveXAsWritten | src/retroflt.h:2833-2847 | the move happens exactly when the new int16_t position is non-negative and the viewport still ends inside the world; the tile position then moves by x >> RETROFLAT_TILE_W_BITS; the screen position, remainders and tile size never change |
| RetroFlt.Viewport.MoveX | src/retroflt.h:2833-2847 | the same bounds check; an accepted move keeps the viewport inside the world and the tile position in agreement with the pixel position; the screen position, remainders and tile size never change |
| RetroFlt.Viewport.MoveYAsWritten | src/retroflt.h:2852-2866 | the move happens exactly when the new int16_t position is non-negative and the viewport still ends inside the world; the tile position then moves by y >> RETROFLAT_TILE_H_BITS; the screen position, remainders and tile size never change |
| RetroFlt.Viewport.MoveY | src/retroflt.h:2852-2866 | corrected vertical move: accepted exactly when the viewport stays inside the world, keeping the tile position in agreement and the horizontal fields unchanged; the screen position, remainders and tile size never change |
| RetroFlt.MoveYAsWrittenLosesTile | src/retroflt.h:2862 | from world_y 8 (tile 0) a move by 8 reaches world_y 16, whose tile is 1, while the source leaves the tile at 0 + (8 >> 4) = 0 |
| RetroFlt.MoveXAsWrittenLosesTile | src/retroflt.h:2843 | from world_x 8 (tile 0) a move by 8 reaches world_x 16, whose tile is 1, while the source leaves the tile at 0 + (8 >> 4) = 0 |
| RetroSft.LineStrategy | src/retrosft.h:48-101 | X is the major axis exactly when abs(y2 - y1) < abs(x2 - x1); the end points, ordered along it and cut to int16_t, are the start and end, the iterator starts at the start, both distances are stored modulo 2^16, the off-axis one made non-negative with `inc` -1 exactly when it was negative, and the delta is 2*off - for modulo 2^16 |
| RetroSft.OrderEnds | src/retrosft.h:55-85 | the major axis is X exactly when abs(y2 - y1) < abs(x2 - x1), and the start and end arrays hold the end points ordered along it, each coordinate cut to int16_t |
| RetroSft.MajorAxis | src/retrosft.h:55 | X exactly when abs(y2 - y1) < abs(x2 - x1), and Y otherwise |
| RetroSft.SmallLineStrategy | src/retrosft.h:48-101 | for coordinates within +-0x1000 nothing wraps: start and end are the two given points ordered along the major axis, the off-axis distance is at most the major one, and the stored distances and delta are the exact ones |
| RetroFp.CosEntry | src/retrofp.h:34-98 | every entry of the cosine table lies in -1000..1000 |
| RetroFp.SinEntry | src/retrofp.h:100-164 | every entry of the sine table lies in -1000..1000 |
| RetroFp.Index | src/retrofp.h:172-185 | the index read for an angle of the table's range lies inside the 63-entry table |
| RetroFp.ScaledSmall | src/retrofp.h:188-194 | an int16_t product divided by 1000 lies strictly between -33 and 33, so negating it cannot overflow |
| RetroFp.Lut | src/retrofp.h:166-197 | retrofp_lut as written, for any int16_t mult, returns a value strictly between -33 and 33 |
| RetroFp.ScaledBound | src/retrofp.h:188-194 | a table entry of at most 1000 in magnitude, times mult and divided by 1000 toward zero, is at most mult in magnitude |
| RetroFp.Sin | src/retrofp.h:28 | the corrected retrofp_sin is never larger than mult in magnitude |
| RetroFp.Cos | src/retrofp.h:30 | the corrected retrofp_cos is never larger than mult in magnitude |
| RetroFp.LutOdd | src/retrofp.h:166-197 | retrofp_lut(-n) is -retrofp_lut(n) for every positive angle of the range, whichever table is read |
| RetroFp.LutPeriod | src/retrofp.h:178-181 | an angle from 2*PI up to 4*PI reads the same value as the angle less 2*PI |
| RetroFp.LutScales | src/retrofp.h:184-194 | while the product fits in int16_t, the result is the entry times mult over 1000, truncated toward zero, with the angle's sign |
| RetroFp.CosAsWrittenIsOdd | src/retrofp.h:30 | retrofp_cos(1, 10) is 10 but retrofp_cos(-1, 10) is -10: the cosine comes out odd |
| RetroFp.SinAsWrittenWraps | src/retrofp.h:188-189 | retrofp_sin(1571, 1000), the sine of pi/2 at scale 1000, wraps in int16_t and returns 13 |
| RetroFp.SinOddCosEven | src/retrofp.h:166-197 | the corrected sine is odd and cosine even, and at scale 1000 each returns its table entry exactly |
| Mgl.VertexInsideEdge | src/mgl.h:109-118 | the edge function is zero at both end points of the edge and changes sign when the edge is reversed |
| Mgl.VertexInside | src/mgl.h:109-118 | the edge function is the cross product of the edge with the vector from its first end point to the tested point |
| Mgl.VertexInsideAsWritten | src/mgl.h:109-118 | mglt_vertex_inside with int16_t a, b and c differs from the full-width edge function by a multiple of 0x10000 |
| Maug.Wrap16IsMod | src/mgl.h:113-115 | a store into int16_t changes a value by a whole number of 0x10000 steps |
| Mgl.WrappedEdge | src/mgl.h:113-117 | the int16_t stores of a, b and c move the edge function by a multiple of 0x10000 |
| Mgl.ShiftedCoefficients | src/mgl.h:113-117 | moving a, b and c by multiples of 0x10000 moves a*tx + b*ty + c by a multiple of 0x10000 |
| Mgl.VertexInsideAsWrittenAgrees | src/mgl.h:109-118 | while the int16_t coefficients a, b and c do not wrap, mglt_vertex_inside computes the edge function |
| Mgl.VertexInsideAsWrittenWraps | src/mgl.h:115 | for the edge (200,0)-(0,200) and the point (200,0) the product x0*y1 = 40000 wraps in int16_t and the result is -65536 instead of 0 |
| Mgl.VertexSet | src/mgl.h:43-51 | an unknown scale type leaves the vertex component as it was; multiplying by 1 or shifting right by 0 keeps an int16_t input |
| Mgl.Gl.constructor | src/mgl.h:100-107 | empty vertex and triangle stacks of MGL_VERTEX_STACK_SZ_MAX and MGL_TRI_STACK_SZ_MAX, colour 0 and a zeroed matrix |
| Mgl.Gl.Scaler | src/mgl.h:29-38 | the matrix becomes shift right by (x, y, z); nothing else changes |
| Mgl.Gl.Colorr | src/mgl.h:132-134 | the current colour becomes `c`; nothing else changes |
| Mgl.Gl.Begin | src/mgl.h:120-124 | a new triangle with no vertices is opened on top of the triangle stack |
| Mgl.Gl.Vertex3i | src/mgl.h:136-156 | the vertex, scaled by the matrix, is pushed on the vertex stack and its index is recorded as the next vertex of the open triangle |
| Mgl.Gl.End | src/mgl.h:126-130 | the finished triangle takes the current colour; nothing else changes |
| Mgl.Gl.Flush | src/mgl.h:158-202 | both stacks are emptied and the matrix zeroed; the colour is kept |
| Mgl.OneTriangle | src/mgl.h:120-156 | glBegin, three glVertex3i and glEnd with an identity matrix give one triangle of vertices 0, 1, 2 in the current colour, holding the three vertices as given |
| MParser.Top | src/mparser.h:9-11 | the state on top of the parser's stack: the last one pushed, or 0 (NONE) when the stack is empty |
| MParser.TopAfterPush | src/mparser.h:13-21 | after a push the top is the state just pushed, and the states below it are kept |
| MParser.TopAfterPop | src/mparser.h:23-28 | after a pop the top is the state pushed before it, or 0 (NONE) once the stack is empty; a push then a pop gives back the old top |
| RetroFnt.Len | src/retrofnt.h:104 | strlen never exceeds the buffer |
| RetroFnt.LenShape | src/retrofnt.h:104 | the characters before strlen are not NUL, and the one at it is |
| RetroFnt.LastIndex | src/retrofnt.h:182 | strrchr: the last index of the character, with no later occurrence, or none when it does not occur |
| RetroFnt.FirstIndex | src/retrofnt.h:87 | strchr: the first index of the character, with no earlier occurrence, or none when it does not occur |
| RetroFnt.FieldStart | src/retrofnt.h:183-189 | the backward scan from the last '.' stops at or before where it started, and does not move when it starts before index 2 |
| RetroFnt.HeightBuf | src/retrofnt.h:175-177 | glyph_h_buf always holds exactly ten characters |
| RetroFnt.HeightBufPrepend | src/retrofnt.h:192-198 | putting a character at the front of glyph_h_buf shifts the rest up by one and drops the tenth |
| RetroFnt.DigitRun | src/retrofnt.h:201 | atoi reads the leading run of decimal digits, which ends at the first character that is not one |
| RetroFnt.ShiftUp | src/retrofnt.h:193-195 | the shift loop moves glyph_h_buf[0..8] up to [1..9] and keeps [0] |
| RetroFnt.PushFront | src/retrofnt.h:192-198 | one step of the scan leaves glyph_h_buf as the new character followed by the first nine old ones |
| RetroFnt.ScanStep | src/retrofnt.h:183-198 | copying a character that is not a separator extends the copied field backwards by one character |
| RetroFnt.SzFromFilename | src/retrofnt.h:171-206 | the loop over the name returns SzAsWritten: atoi of the characters between the field start and the last '.' |
| RetroFnt.SzAsWritten | src/retrofnt.h:171-206 | retrofont_sz_from_filename as written agrees with the corrected Sz whenever the height field does not start at index 0 |
| RetroFnt.FieldStartFromOne | src/retrofnt.h:183-189 | the written scan stops where the corrected one does, except that it stops at index 1 where the corrected one reaches index 0 |
| RetroFnt.SzDropsFirstDigit | src/retrofnt.h:183 | the scan never reads index 0, so "16.hex" gives height 6 |
| RetroFnt.HeightStart | src/retrofnt.h:183-189 | the corrected field starts right after the last '-' or '_' before the '.', or at the start of the name |
| RetroFnt.SzReadsDigits | src/retrofnt.h:171-206 | with the corrected start, a name whose field before the last '.' is one to nine digits gives their decimal value |
| RetroFnt.StripLast | src/retrofnt.h:104-112 | one trailing new line, return, tab or space is cut, and nothing else |
| RetroFnt.TextCut | src/retrofnt.h:99-100 | writing a NUL over the ':' splits the text into the index before it and the bytes after it |
| RetroFnt.StrippedText | src/retrofnt.h:104-112 | the SUB branch changes only the text after the ':', which loses its trailing blank |
| RetroFnt.StripTrailing | src/retrofnt.h:104-112 | the SUB branch's strlen and test leave the buffer as Stripped says |
| RetroFnt.SplitRejoins | src/retrofnt.h:87-100 | a line that is not a SUB line is its index, ':' and bytes rejoined: splitting loses nothing |
| RetroFnt.CutSplits | src/retrofnt.h:87-100 | a line with a ':' and no SUB index splits at its first ':' into the index and the bytes, with MERROR_OK |
| RetroFnt.SubSplits | src/retrofnt.h:103-114 | a SUB line splits at its first ':', its bytes lose one trailing blank, and the result is MERROR_PARSE |
| RetroFnt.SplitMeaning | src/retrofnt.h:77-119 | the buffer and result the function leaves are those the split describes: MERROR_WAIT and no change without a ':' |
| RetroFnt.SplitLine | src/retrofnt.h:87-119 | after the read, the buffer and the returned (result, bytes position) are SplitBuffer and SplitResult of the line read |
| RetroFon.WidthBytes | api/font/soft/mrapifon.h:145 | glyph_w_bytes, half the hex digits per row, is a uint8_t store below 256 |
| RetroFon.Loaded | api/font/soft/mrapifon.h:145-175 | the header written on load: sz is sizeof( struct RETROFONT ), first_glyph and glyph_h as given, and glyph_w and glyph_sz below 256 |
| RetroFon.WidthFromHex | api/font/soft/mrapifon.h:145-148 | a first glyph line of 2 * w * h hex digits gives glyph_w_bytes w and glyph_w 8 * w |
| RetroFon.LoadedGlyphSz | api/font/soft/mrapifon.h:156-175 | the stored glyph_sz never exceeds the per-glyph room glyph_h * glyph_w_bytes that the allocation reserves |
| RetroFon.GlyphFits | api/font/soft/mrapifon.h:27-29 | for a glyph index from first_glyph to first_glyph + count, the glyph's bytes start after the header and end inside an allocation of count + 1 glyph slots |
| RetroFon.GlyphAt | api/font/soft/mrapifon.h:27-29 | glyphs from first_glyph on start after the header; an index below first_glyph, which is not checked, lands before the glyph table |
| RetroFon.GlyphInAllocation | api/font/soft/mrapifon.h:156-191 | every glyph that retrofont_glyph_at finds for a loaded font lies wholly inside the allocation retrofont_load made |
| RetroFon.GlyphsDisjoint | api/font/soft/mrapifon.h:27-29 | the bytes of a glyph end at or before the start of the next glyph index's bytes |
| RetroFon.OrLow | api/font/soft/mrapifon.h:196-198 | or-ing a value below 2^k into a multiple of 2^k is addition |
| RetroFon.RowByteAsWrittenMisreadsNine | api/font/soft/mrapifon.h:196-198 | as written, the row "09" loads as 0x02 where the corrected decode gives 0x09, while "18" loads as 0x18 either way |
| RetroFon.RowByte | api/font/soft/mrapifon.h:196-198 | the row store, the high digit shifted left by 4 and OR-ed with the low digit in a uint8_t: with the corrected `maug_hctoi` (see Findings), for two hex digits the byte is 16 times the value of its first hex digit plus the value of its second |
| RetroFon.Rows | api/font/soft/mrapifon.h:193-199 | with the corrected `maug_hctoi`, n hex-digit pairs decode to n row bytes |
| RetroFon.HexRow | api/font/soft/mrapifon.h:196-198 | a row byte's hex text is two hex digits |
| RetroFon.HexRowDecodes | api/font/soft/mrapifon.h:196-198 | with the corrected `maug_hctoi`, decoding the two hex digits of a byte gives the byte back |
| RetroFon.RowsOfHexRows | api/font/soft/mrapifon.h:193-199 | with the corrected `maug_hctoi`, decoding the hex text of any rows gives those rows back |
| RetroFon.RowsPrefix | api/font/soft/mrapifon.h:193-199 | decoding n rows reads only the first 2n characters of the line |
| RetroFon.DecodeStep | api/font/soft/mrapifon.h:196-198 | one decoded row extends the decoded part by row i and leaves the rest |
| RetroFon.DecodeGlyph | api/font/soft/mrapifon.h:193-212 | with glyph_w 8 the glyph's rows become the rows decoded with the corrected `maug_hctoi` of the line and nothing else changes; 16 and 32 change nothing; any other width with rows to decode is MERROR_PARSE |
| RetroFon.Stop | api/font/soft/mrapifon.h:429-433 | the character loop stops at or after where it starts and within the string |
| RetroFon.StringSz | api/font/soft/mrapifon.h:400-468 | the loop leaves the result, width and height StringSize describes; a NULL font gives MERROR_GUI with the outputs unchanged |
| RetroFon.StringSize | api/font/soft/mrapifon.h:400-468 | a NULL font gives MERROR_GUI with the outputs unchanged; otherwise the height is at least one glyph_h more than it started, the result is MERROR_OK or MERROR_GUI, a NULL width stays NULL and a given width grows by at least 1 |
| RetroFon.RunGrows | api/font/soft/mrapifon.h:429-453 | the character loop only adds height, keeps a NULL width NULL, never narrows a given width, and only ever sets the result to MERROR_GUI |
| RetroFon.UnwrappedHeight | api/font/soft/mrapifon.h:429-453 | without wrapping, the height grows by glyph_h for each forced newline, and the result is unchanged |
| RetroFon.LineWidth | api/font/soft/mrapifon.h:441-444 | without wrapping, a line of n characters advances x by n * glyph_w and the width reaches the larger of its old value and x |
| RetroFon.WrappedWidth | api/font/soft/mrapifon.h:441-453 | with max_w set, the pen never stands where the next glyph would cross max_w, and the width stays within the larger of its start, max_w and one glyph |
| RetroAni.NewAni | src/retroani.h:741-781 | a new animation carries exactly the given type, flags, position and size, a blank tile, no hole, no target and the default frame rate; FIRE starts red, yellow, white, SNOW white, STRING black, and the other colour slots are left unset |
| RetroAni.PausedBits | src/retroani.h:937-940 | an animation carrying every flag asked for gets PAUSED; no other flag bit changes |
| RetroAni.ResumedBits | src/retroani.h:966-969 | an animation carrying every flag asked for loses PAUSED; no other flag bit changes |
| RetroAni.OnlyFlagsChange | src/retroani.h:924-976 | pause and resume change only the flags, and leave an animation that lacks some asked-for flag untouched |
| RetroAni.PauseIdempotent | src/retroani.h:924-947 | pausing twice with the same flags is pausing once |
| RetroAni.ResumeAfterPause | src/retroani.h:924-976 | pausing does not change which animations match, so resume after pause is resume alone |
| RetroAni.PauseAfterResume | src/retroani.h:924-976 | without PAUSED among the flags, pause after resume is pause alone; with it, a resumed animation no longer matches and stays running |
| RetroAni.ZeroedMatchesOnlyNothing | src/retroani.h:992 | a stopped (zeroed) entry matches only the empty flag set |
| RetroAni.AniStack.Create | src/retroani.h:741-781 | the new animation is appended and its index, the old count, is returned |
| RetroAni.AniStack.SetColors | src/retroani.h:711-737 | MERROR_OVERFLOW with nothing changed for an index past the stack; otherwise exactly that animation's four colours are replaced |
| RetroAni.AniStack.Pause | src/retroani.h:924-947 | every animation becomes Paused of itself; the count is unchanged and the result is MERROR_OK |
| RetroAni.AniStack.Resume | src/retroani.h:951-976 | every animation becomes Resumed of itself; the count is unchanged and the result is MERROR_OK |
| RetroAni.AniStack.Stop | src/retroani.h:980-1000 | MERROR_OVERFLOW with nothing changed for an index past the stack; otherwise exactly that entry is zeroed |
| RetroGui.InitCtlPushable | src/retrogui.h:295-304 | an initialised control has its type and IDC and nothing else set, and can be pushed exactly when it is a listbox, which is black on white |
| RetroGui.FirstIdc | src/retrogui.h:308-327 | a found control index lies among the controls searched |
| RetroGui.FirstIdcMeaning | src/retrogui.h:308-327 | the search finds the earliest control with the IDC, and none only when no control has it |
| RetroGui.StoredItemShape | src/retrogui.h:246-248 | a stored item takes item_sz + 1 characters ending in NUL, and holds the item's text cut at item_sz |
| RetroGui.GrownBounds | src/retrogui.h:235-242 | the doubled capacity exceeds what is needed, never shrinks, stays within twice the need when it grew, and is unchanged when there was room |
| RetroGui.WithItemGrows | src/retrogui.h:229-248 | storing an item keeps the earlier items, appends the stored item, leaves room beyond the text in use and changes nothing else in the control |
| RetroGui.InitCtl | src/retrogui.h:525-546 | a control gets its type and IDC with everything else zero; a listbox is black on white and every other type keeps null colours |
| RetroGui.TypePush | src/retrogui.h:130-134 | the per-type push yields MERROR_GUI exactly for a NONE control (retrogui_push_NONE) and MERROR_OK otherwise |
| RetroGui.InitAsWritten | src/retrogui.h:550-563 | as written, retrogui_init always returns MERROR_OK with ctls_sz_max 10, and the table exists exactly when the allocation succeeded |
| RetroGui.InitAsWrittenTableTooSmall | src/retrogui.h:555-556 | as written, the table has 400 bytes, room for 4 controls of 96 bytes while ctls_sz_max is 10, so the fifth push writes past it |
| RetroGui.InitAsWrittenMissesAllocFailure | src/retrogui.h:557 | as written, a failed table allocation still returns MERROR_OK |
| RetroGui.CleanupCtlAsWritten | src/retrogui.h:214-266 | as written, the control the cleanup reads through is one whose IDC matches, and only when the table was locked |
| RetroGui.PushListboxItemAsWrittenReadsNull | src/retrogui.h:214-261 | as written, a missing IDC or a failed lock reaches `ctl->LISTBOX.list` with a NULL `ctl` |
| RetroGui.Gui.constructor | src/retrogui.h:550-563 | a new GUI has no controls in use and a table of the given capacity |
| RetroGui.Gui.Init | src/retrogui.h:550-563 | corrected retrogui_init: a fresh, empty table of RETROGUI_CTL_SZ_MAX_INIT controls, or MERROR_ALLOC and no GUI when the allocation fails |
| RetroGui.Gui.GetCtlByIdc | src/retrogui.h:308-327 | the loop returns FirstIdc: the first control in use with the IDC, or none when no control in use has it |
| RetroGui.Gui.PushCtl | src/retrogui.h:441-491 | a control with a null background or foreground colour is refused with MERROR_GUI and nothing changes; otherwise it is copied into the next slot, the count grows by one, and the result is the type's push: MERROR_GUI for a NONE control, which stays stored, and MERROR_OK otherwise |
| RetroGui.Gui.PushListboxItem | src/retrogui.h:208-266 | corrected: MERROR_GUI with nothing changed when no control has the IDC; otherwise the first such control's item buffer becomes WithItem and no other control changes |
| RetroPth.ClosedScanAsWrittenWraps | src/retropth.h:128-139 | as written, for a closed list of 256 nodes or more the scan's test `closed_sz > i` holds at every step and the counter goes back to 0 after 255, so closed[256..] is never compared |
| RetroPth.IterIdxAsWrittenTruncates | src/retropth.h:221-259 | as written, the node closed at index 256 is expanded as index 0, the start node |
| RetroPth.StartNode | src/retropth.h:228-240 | the node that seeds the open list: zeroed, with the start coordinates |
| RetroPth.Step | src/retropth.h:297-300 | a coordinate plus an offset stored in a uint16_t stays in range, and is unchanged when it already fits |
| RetroPth.AsWrittenSkipsNeighbour | src/retropth.h:148-156 | with the target (5, 5) occupied, the tile (5, 6) is never checked for blocking, although it is not the target |
| RetroPth.ChecksBlockAsWritten | src/retropth.h:148-156 | as written, an occupied target exempts its whole row and column from the blocking test; every tile this test checks, the corrected one checks too |
| RetroPth.ChecksBlock | src/retropth.h:148-156 | as intended, a tile is exempt from the blocking test exactly when it is the occupied target |
| RetroPth.ScoredCosts | src/retropth.h:174-187 | scoring sets only the costs: g is the parent's plus one, h the Manhattan distance to the target and f their sum, each while it fits a uint8_t |
| RetroPth.AddChildResult | src/retropth.h:119-208 | with the corrected blocking exemption (see Findings), test_add_child returns 0, ERROR_FARTHER, ERROR_CLOSED, BLOCKED or OVERFLOW |
| RetroPth.AddChildKeepsListsApart | src/retropth.h:138-206 | a child is added only on a tile neither list holds, so the open list keeps distinct tiles apart from the closed list, and a closed tile is never reopened |
| RetroPth.ListAppend | src/retropth.h:67-81 | MERROR_OVERFLOW with the list unchanged when it would reach RETROTILE_PATH_LIST_MAX; otherwise the node goes at the end and the size grows by one |
| RetroPth.ListRemove | src/retropth.h:83-93 | the entry at the index is removed, later entries move down by one, and the size shrinks by one |
| RetroPth.LowestF | src/retropth.h:99-117 | the index of the first node with the lowest f among the entries in use, or 0 for an empty list |
| RetroPth.TestAddChild | src/retropth.h:119-208 | with the corrected blocking exemption and a closed-list scan that reaches every closed node however many there are, the result is AddChildResult; the neighbour is scored unless it was closed or blocked, and is appended to the open list exactly when the result is 0 |
| RetroPth.Expand | src/retropth.h:280-308 | for a closed list of any size, testing the four neighbours keeps the open list's entries and adds only neighbours of the expanded node, within RETROTILE_PATH_LIST_MAX |
| RetroPth.SearchPass | src/retropth.h:243-309 | for a closed list of any size, the cheapest open node is closed at the next index, that same node is expanded, and nothing else in the closed list changes; the pass stops when the list is full or the node is on the target, and otherwise keeps the search invariant |
| RetroPth.PathStart | src/retropth.h:210-326 | with the corrected blocking exemption, the result is a direction 0..3 exactly when the target was closed, and, when the closed list starts empty, it is the direction of the first step from the start; MERROR_OVERFLOW exactly when the closed list filled; BLOCKED when no closed node reached the target; when the closed list starts empty, a search starting on the target returns 0; the closed list may hold any number of nodes (the index is not truncated to uint8_t) |

## Left out

- Characters are read as unsigned values. On a platform where `char` is signed, bytes from 0x80 up compare differently, and the model does not cover that case.
- Every container the source keeps in an MDATA_VECTOR outside `src/mdata.h` is a sequence field here: the animation stack, the Lisp stack and environment, the AST and the tag table. In those modules an append always succeeds, and locking is not modelled. The vector's own growth, lock and error paths are modelled once, in `MData.Vector`.
- Allocation and lock failures are modelled only in three places: `MData.Vector` and `MData.StrPool` refuse a locked vector, `RetroHtr.RenderTree.GetNextFreeNode` takes whether `maug_mrealloc` succeeded as a parameter, and `RetroGui.Gui.Init` takes whether the table allocation succeeded. Everywhere else, `maug_malloc`/`maug_mrealloc` returning NULL and a failed lock of a handle are left out, because memory exhaustion is not part of the model.
- MString.TokStr: follows the build with NDEBUG. The debug-only assertion after the terminator is not modelled.
- MString.Utoa: assumes a `long` wider than 32 bits, as in an LP64 build. With a 32-bit `long` (the Borland note at src/mstring.h:275), a value of 2^31 or more reaches `maug_digits( long int, ... )` (src/mstring.h:193) as a negative number, and the digit count then includes a sign; that case is not modelled.
- MString.Atos32: an int32_t overflow wraps modulo 2^32. C leaves signed overflow undefined, and the model picks the two's-complement outcome.
- MSerial.AsnSz: its decode ensures hold only for a short-form length or a write at the end of the file. Before the end, the unix write_block leaves the position at the end, so the later bytes of a long-form length are appended there (see Findings).
- MSerial.SerialFile.WriteBlock: models a writable file whose `fread` and `fwrite` succeed. The read-only refusal and the short-read and short-write errors of `mfile_file_write_block` are I/O and are not modelled.
- MSerial.IntBytesOne: the 39-byte vector in check/chkmser.c for the powers of two 1 to 1024 is not stated as one concrete lemma. IntBytesOne and IntBytesTwo state the one- and two-byte encodings for every value, which covers each item, e.g. 128 as 02 02 00 80.
- MFmt: the file reads go through a byte sequence. The `mfile` cursor calls and the logging are not modelled. `mfile_u32read_lsbf_at` and `mfile_u16read_lsbf_at` are not part of this model: a field read that runs past the end of the file is taken to fail as the corrected `MFile.MemFile.ReadBlock` does, copying nothing. On an error, the fields already stored in the caller's structure are not part of the result.
- MFmt.ReadBmpPx: requires PxFits, that is a positive width, a height of at least 0, a bit depth of 1, 2, 4 or 8, a `px` buffer of width * height pixels, and data that holds every stored row. The source checks none of this (its "TODO: Bounds checking!" at src/mfmt.h:210); with a smaller buffer or shorter data it writes or reads past the end. A negative, top-down height (src/mfmt.h:186, `y = height - 1` in a uint32_t) is not modelled either.
- MFile.MemFile.WriteBlock: requires `cursor + buf_sz <= sz` for a non-empty write to a writable file. The source does not grow the buffer (the TODO at src/mfile.h:549-551), and a longer write runs past it; that overrun is not modelled.
- BmpTool and IcnTool: opening the file, printing and the command line are I/O. The callbacks and the printed text are traces returned by the model.
- MJson: the token parser and the open/close callbacks are the caller's code. Their return value is a parameter, and the calls are an event log.
- RetroTil: struct sizes are those of an LP64 build. A layer tile's value is `atoi`'s result, taken as a parameter. The `custom_token_cb` hook and the parse_token branches for properties and tilesets are not modelled. Tiles live in a separate array next to the layer headers, not inside one byte buffer. The animation callback is a function from the row to a result, and a NULL callback always returns MERROR_OK. The float `tile_scale` is an exact real; only the 1.0 that Alloc stores is modelled.
- RetroTil.FlatLayerUnchanged: requires tile values small enough that eight of them sum within int16_t, where the source's int16_t sums do not wrap.
- RetroTil.SmoothCellBounds: requires the same small-tile bound.
- `retrotile_gen_borders`, `retrotile_gen_diamond_square_iter` and `retrotile_gen_voronoi_iter` are left out because they depend on `rand()`.
- RetroFon.Loaded: `glyphs_count` is never set after `maug_malloc` (api/font/soft/mrapifon.h:167-175 sets five fields and line 223 only increments it). The model starts it at 0, as a zeroing allocator would.
- RetroSft.LineStrategy: the coordinates are C `int`s and their differences are exact; an `int` overflow in `abs( y2 - y1 )` is undefined in C and not modelled.
- RetroPth: `gc_retrotile_offsets8_x`/`_y` are not part of this model, so the neighbour offsets are parameters. The blocking test is a function parameter.
- RetroPth.TestAddChild, Expand, SearchPass, PathStart: count the closed list in nat, so they do not show the source's hang (the uint8_t scan counter wraps on 256 or more closed nodes) or its truncation (iter_idx expands closed[0] instead of closed[256]); both are under Findings with ClosedScanAsWrittenWraps and IterIdxAsWrittenTruncates.
- RetroPth.LowestF: requires at most 128 entries. The returned index is an int8_t, and the source's lists hold only RETROTILE_PATH_LIST_MAX (20) entries, so longer lists are not modelled.
- MLispE: floating-point values are exact reals, because IEEE rounding is not modelled. The string pool is left out, so a name or token is the text it holds. The callbacks' `cb_data` is not modelled. The `ret_idx` error path of `_mlisp_env_prune_args` is not modelled either.
- MLispP: the token buffer grows without bound. The assertion in the state push becomes the precondition that the state stack has room. String-pool failures, `mlisp_ast_dump` and `mlisp_parse_file` (file I/O and logging) are left out. A new node is appended to the table before its parent's slot is searched.
- MLispP.AddChildAst: when the parent has no free slot, the corrected version stops with MERROR_OVERFLOW. The source ignores the return value of `_mlisp_ast_add_child`.
- RetroHtr.RenderTree.FindPrevSibling: the CSS position value MCSS_POSITION_ABSOLUTE is a parameter. Node sizes, margins, colours, fonts and bitmaps, and the layout that computes them, are not modelled.
- MHtml: the character-level state machine and the CSS parser (`src/mcss.h`) are not part of this model. A token arrives as the characters it holds. `mparser_token_upper` is not part of this model; it is taken to upper-case the whole token as `maug_str_upper` does.
- RetroFlt.Dir8ReverseInvolution: covers directions 0 to 7. RETROFLAT_DIR8_NONE reverses to 3 and is not an involution.
- RetroFnt: reading the font file is I/O. Only the line split and the size parse are modelled.
- RetroFon: glyph rendering (`retrofont_string`, drawing through retroflat) is left out. So are the wider 16- and 32-pixel glyph rows, which the source leaves unimplemented.
- RetroGui: the Windows path (window handles, SendMessage) and drawing are left out.
- Mgl.Gl.Flush: the pixel drawing of `glFlush` goes through `retroflat_px`, which is I/O. Only the stack reset is modelled.
- Marge.Step: an option whose callback is NULL and that matches an entry, or is last_i, is called through the NULL pointer (src/marge.h:148, 170), which C leaves undefined. The model records the call and takes `cb`'s result.
- Marge.MatchedCalledTwice: as written, an entry that matches an option is passed to that option's callback twice, once as the match and once as the latest option's argument. The model keeps this behaviour.
- RetroTil.TilesetsPropUnreachable: a state table row the source can never reach. The model keeps it.
- MLispP.ParenInComment: a parenthesis inside a comment fails the parse with error 1, as the source does. The STRING parse state is never pushed by `mlisp_parse_c`, so its branches are unreachable.
- The 3D, floating-point, platform-backend, timing and random-generator headers are not part of this model.

## Findings

| source | as written | input that shows it | evidently intended | confidence | as-written member | corrected member |
|---|---|---|---|---|---|---|
| src/mstring.h:63-64 | `maug_hctoi` maps '9' wrongly | '9' decodes to 2 | '9' decodes to 9, like every other decimal digit | not executed | MString.HexCharToIntAsWrittenMisreadsNine | MString.HexCharToIntInvertsDigitChar |
| api/font/soft/mrapifon.h:196-198 | glyph rows are decoded with `maug_hctoi`, so the '9' error reaches every font | a glyph row "09" loads as 0x02 | the row loads as 0x09, and every row's hex text decodes back to it | not executed | RetroFon.RowByteAsWrittenMisreadsNine | RetroFon.RowsOfHexRows |
| src/mfile.h:309 | `maug_snprintf` (src/mstring.h:676-678) stores the NUL only when it still fits, so a source path of MAUG_PATH_SZ_MAX or more characters fills the first 256 bytes of `tgt` with no NUL; the path type holds MAUG_PATH_SZ_MAX + 1 bytes, so the text ends only if the last byte already held a NUL, and `maug_strrchr` under TRIM_EXT scans on | a source path of 256 characters, which its type allows | the path is cut to MAUG_PATH_SZ_MAX - 1 characters and ended with a NUL, as C's snprintf does | not executed | MFile.AssignPathAsWrittenUnterminated | MFile.AssignPath |
| src/mfile.h:421-442 | `mfile_mem_read_block` checks only that the cursor is before the end | a two-byte read at cursor 7 of an eight-byte buffer is accepted and reads index 8 | a block that runs past the end is refused with MERROR_FILE | not executed | MFile.ReadBlockAsWrittenOverReads | MFile.MemFile.ReadBlock |
| api/serial/asn1/mrapiser.h:183-208 | the footer seeks back to the header and writes the length with _mserialize_asn_sz, one write_block per byte, while the unix write_block leaves the position at the end of the file | a sequence of 128 bytes: the length 82 00 80 is split into 82 after the tag and 00 80 after the contents, and a reader at the header gets length 0 | the whole length is inserted at the header | not executed | MSerial.FooterAsWrittenMisplacesLength | MSerial.Footer |
| api/serial/asn1/mrapiser.h:86-104 | the integer's byte count is taken before a negative value is negated | -300 is written as 42 01 2c, which reads back as -44 | the count is taken from the magnitude: 42 02 01 2c | not executed | MSerial.IntBytesAsWrittenLosesNegative | MSerial.IntBytesDecodes |
| src/mfmt.h:145-150 | the palette loop stops only once `i * 4 > palette_sz` | three colours into an 8-byte palette buffer store all three, the third past the end | stop before a colour that does not fit | not executed | MFmt.PaletteAsWrittenOverflows | MFmt.ReadBmpPalette |
| src/mfmt.h:232-241 | the bit position is not reset at the end of a row | a 1-bit image, one pixel wide and two rows high, whose top row is 1 reads as 0 | every row starts at the top bit of its first byte | not executed | MFmt.BitIdxNotReset | MFmt.ReadBmpPx |
| src/retrofp.h:30 | `retrofp_cos` negates the result for a negative angle | cos(1) is 10 and cos(-1) is -10 at scale 10 | the cosine is even | not executed | RetroFp.CosAsWrittenIsOdd | RetroFp.SinOddCosEven |
| src/retrofp.h:188-189 | the table entry times the scale is computed in int16_t | `retrofp_sin(1571, 1000)` wraps and returns 13 | the product is computed wide enough and returns the table entry, 997 | not executed | RetroFp.SinAsWrittenWraps | RetroFp.SinOddCosEven |
| src/mgl.h:115 | `mglt_vertex_inside` keeps its products in int16_t | edge (200,0)-(0,200) and point (200,0) give -65536 instead of 0 | the edge function is 0 at both end points | not executed | Mgl.VertexInsideAsWrittenWraps | Mgl.VertexInsideEdge |
| src/retroflt.h:2843 | `move_x` adds `x >> 4` to the tile coordinate and drops the partial-tile carry | from world_x 8 a move by 8 reaches world_x 16 (tile 1) while the tile stays 0 | the tile is recomputed from the new position | not executed | RetroFlt.MoveXAsWrittenLosesTile | RetroFlt.Viewport.MoveX |
| src/retroflt.h:2862 | `move_y` adds `y >> 4` to the tile coordinate and drops the partial-tile carry | from world_y 8 a move by 8 reaches world_y 16 (tile 1) while the tile stays 0 | the tile is recomputed from the new position | not executed | RetroFlt.MoveYAsWrittenLosesTile | RetroFlt.Viewport.MoveY |
| src/retrogui.h:555-556 | the control table is sized with `sizeof( struct RETROGUI )` instead of `sizeof( union RETROGUI_CTL )` | in an LP64 build the 400-byte table holds 4 controls, and the fifth push passes the assertion and writes past it | RETROGUI_CTL_SZ_MAX_INIT controls fit | not executed | RetroGui.InitAsWrittenTableTooSmall | RetroGui.Gui.Init |
| src/retrogui.h:557 | the allocation check tests `gui` instead of `gui->ctls_h` | a failed allocation returns MERROR_OK with no table | MERROR_ALLOC | not executed | RetroGui.InitAsWrittenMissesAllocFailure | RetroGui.Gui.Init |
| src/retrogui.h:261 | the cleanup reads `ctl->LISTBOX.list` although `ctl` is still NULL on the early exits | an IDC no control has, or a failed lock of the table | the early exits return without touching `ctl` | not executed | RetroGui.PushListboxItemAsWrittenReadsNull | RetroGui.Gui.PushListboxItem |
| src/retrofnt.h:183 | the digit scan never reads index 0 | "16.hex" gives height 6 | "16.hex" gives 16 | not executed | RetroFnt.SzDropsFirstDigit | RetroFnt.SzReadsDigits |
| src/retropth.h:148-156 | the blocking test is skipped when x or y equals the target's (`&&` in the exemption) | with the target at (5, 5), the tile (5, 6) is never checked for blocking | only the target itself is exempt; AddChildResult, TestAddChild and PathStart use this corrected test | not executed | RetroPth.AsWrittenSkipsNeighbour | RetroPth.ChecksBlock |
| src/retropth.h:128-139 | the closed-list scan counts in a uint8_t `i` against the size_t `closed_sz` | a closed list of 256 nodes and a neighbour that is not among closed[0..255]: `i` wraps to 0 and the loop never ends | every closed node is compared once and the scan ends | not executed | RetroPth.ClosedScanAsWrittenWraps | RetroPth.TestAddChild |
| src/retropth.h:221-259 | `iter_idx = *p_closed_sz` stores the size_t index in a uint8_t | the 257th closed node (index 256) is expanded as index 0, the start node | the node just closed is expanded | not executed | RetroPth.IterIdxAsWrittenTruncates | RetroPth.SearchPass |
| src/retrotil.h:1992 | the neighbour sum is divided by the neighbour count | a 1x1 map has no neighbours and divides by zero | a tile with no neighbours keeps its value | not executed | RetroTil.LoneTileDividesByZero | RetroTil.SmoothCell |
| src/mlispp.h:139-148 | the free-slot search has no bound | a parent whose ten child slots are taken gets another child (an eleventh nested list): the search reaches index 10 and writes past the child array | a full node is refused with MERROR_OVERFLOW | not executed | MLispP.FullParentOverruns | MLispP.FullNodeOverflows |
