# activPAL raw-file decoder, modelled in Dafny

This project models the reader for activPAL accelerometer raw files
(`.datx` and `.dat`) in `uos_activpal/io/raw.py`, and proves what it does.
A raw file is a fixed-length header (1024 bytes for `.datx`, 1023 for
`.dat`) followed by a body of three-byte groups.

- **Header** (`Header.dfy`). `extract_metadata` reads the metadata record
  at fixed byte offsets:
  - firmware, bit depth and resolution;
  - sample rate, axes, start and stop date-times and their duration;
  - start and stop conditions, file code and device id.
- **Body, reference definition** (`Body.dfy`). This is the functional
  definition of what `extract_accelerometer_data` computes, and of
  `_old_tail_check`. Each group is one of four kinds, tested in this order:
  1. the tail marker, which ends the data;
  2. the invalid sentinel `(255, 255, 255)`, which repeats the previous row;
  3. a run-length group `(0, 0, z)`, which repeats the previous row `z + 1`
     times before firmware 218 and `z` times from 218 on;
  4. a normal sample.
- **Body, imperative** (`Decoder.dfy`). This is the loop itself: a
  pre-sized, zero-filled `array` of rows, a row counter, an inner copy loop
  and the early exit at the tail. Each method is proved to compute exactly
  the reference definition.
- **Body properties** (`BodyProperties.dfy`). This file proves what the
  decoder promises about that definition:
  - how samples, sentinels and runs turn into rows;
  - that nothing after the tail marker matters;
  - when the buffer can and cannot overflow.
- **File-code patch** (`ChangeCode.dfy`). `change_file_code` works on the
  file as a byte array and as a value. It is proved to round-trip with the
  header's file code.
- **Loading** (`Loader.dfy`). `load_activpal_data` picks the header length
  from the extension, splits the content there and decodes both parts.

Decisions the source leaves open, and how the model resolves them:

- **Short reads.** Reading a byte past the end of the body is the error
  `ReadPastEnd`. This covers `y` or `z` of an incomplete last group, and a
  tail-marker byte that the short-circuit `and` chain actually reaches. The
  chain is evaluated exactly as written: a `.dat` run-length group with a
  non-zero count reads up to five bytes past its own group.
- **Buffer overflow.** Writing a row past the pre-sized buffer is the error
  `BufferOverflow`.
- **Repeating the "previous" row before any row exists.** At row 0,
  `signals[row - 1]` wraps to the last row of the zero-filled buffer. That row
  is `(0, 0, 0)`, because nothing can have written it yet.
- **Data with no tail marker.** The code returns the whole pre-sized buffer
  of `floor(len(body) / 3) * 255` rows: the decoded rows followed by zero
  rows. Truncation to the decoded rows happens only at a tail marker. The
  model follows the code, which does not truncate when the data ends without
  a marker.
- **The two sentinel tests.** `two54` and `two55` are the same test, (255,
  255, 255), so `(255, 255, 254)` is an ordinary sample. The model follows
  the code.
- **Calendar validity.** Date validity and `duration` follow Python's
  `datetime` rules (proleptic Gregorian calendar, years 1 to 9999). The
  duration is a whole number of seconds.
- **Integer arithmetic.** Header arithmetic is exact. Under NumPy 1.x
  promotion, a `uint8` scalar combined with a Python `int` gives a 64-bit
  integer. The firmware value is `header[39] * 255 + header[17]`, as written:
  the lemma `FirmwareLowByteOverlaps` shows two byte pairs that give the same
  value.
- **File codes.** The file code drops NUL bytes anywhere in its eight-byte
  field, as the code does.

## Model

| member | source | states |
|---|---|---|
| Body.MatchFrom | uos_activpal/io/raw.py:219-226 | the short-circuit marker test can only fail by reading past the end, and only when the marker does not fit in the body; a true answer means the whole marker fits |
| Body.Classify | uos_activpal/io/raw.py:215-232 | reading a group can only fail by reading past the end; a group that is read has all three of its bytes in the body |
| Body.RowCount | uos_activpal/io/raw.py:237-254 | rows a group appends: at most 256; 256 exactly for (0, 0, 255) before firmware 218; none exactly for (0, 0, 0) from firmware 218 on |
| Body.Previous | uos_activpal/io/raw.py:238-242 | the row copied by the sentinel and by runs is the zero row or one of the rows emitted |
| Body.PreviousWrapsAround | uos_activpal/io/raw.py:238-242 | that row is the buffer entry at index row - 1 taken modulo the buffer length, as NumPy resolves index -1 at row 0: the last decoded row, or a still-zero row |
| Body.Emit | uos_activpal/io/raw.py:237-254 | a group other than the tail keeps the earlier rows as a prefix and adds exactly RowCount rows |
| Body.ScanFrom | uos_activpal/io/raw.py:213-254 | a successful scan ends at or after its start; at a tail marker, at a complete group inside the body; otherwise at or past the end of the body |
| Body.MaxRows | uos_activpal/io/raw.py:208 | 255 rows per complete three-byte group, none for a body shorter than one group |
| Body.MatchFromMeaning | uos_activpal/io/raw.py:219-226 | the short-circuit tail test gives true exactly when the whole marker fits and every byte passes; it raises exactly when every byte present passes but the body ends first |
| Body.OldTailCheck | uos_activpal/io/raw.py:174-177 | true exactly when bytes 0..7 are 0, 0, >0, 0, 0, >0, >0, 0 |
| Body.ClassifyMeaning | uos_activpal/io/raw.py:215-254 | the four kinds in priority order: a tail marker wins; the group is the sentinel exactly when all three bytes are 255; a run-length group has x = y = 0 and is no tail; a normal group is its own triplet and none of the others; an incomplete group is a read past the end |
| Body.ClassifyErrMeaning | uos_activpal/io/raw.py:219-226 | a complete group raises only when its three bytes start a tail marker, so that the check reads on past the body |
| Body.EmitMeaning | uos_activpal/io/raw.py:237-254 | every group but the tail keeps the earlier rows; it appends one row (a sample's own triplet, or a copy of the previous row for the sentinel) or a run of copies of the previous row |
| Body.ScanFromMeaning | uos_activpal/io/raw.py:213-255 | rows written earlier never change; the buffer bound is kept; the scan stops at a tail marker, or else at the end of the body |
| Body.Decode | uos_activpal/io/raw.py:207-255 | the rows before the tail marker when there is one; otherwise the whole buffer of floor(len/3)*255 rows, the decoded rows followed by zero rows; the errors of the scan |
| Decoder.ExtractAccelerometerData | uos_activpal/io/raw.py:181-255 | the loop over groups into a zero-filled array returns exactly Decode |
| Decoder.DecodeGroup | uos_activpal/io/raw.py:215-254 | one iteration over the array: when it goes on, the group is no tail and the array's rows up to the new counter are exactly the earlier rows with that group's rows emitted, and the reference scan continues from them; at the tail or an error it ends with the scan's result |
| Decoder.AppendCopies | uos_activpal/io/raw.py:247-249 | the inner loop writes n copies of the previous row after the current one, or fails exactly when they do not fit, leaving later rows untouched |
| BodyProperties.TripletsAt | uos_activpal/io/raw.py:250-254 | one row per group, the g-th row being bytes 3g, 3g+1, 3g+2 |
| BodyProperties.PlainGroupIsNormal | uos_activpal/io/raw.py:228-254 | a group that is no run, no sentinel and no marker start is classified as a sample of its own bytes |
| BodyProperties.ScanOverPlainGroups | uos_activpal/io/raw.py:214-254 | scanning plain groups appends exactly their triplets |
| BodyProperties.PlainBodyDecodesToTriplets | uos_activpal/io/raw.py:207-255 | a body of n plain groups with no tail gives its n triplets in order, followed by zero rows up to the buffer size |
| BodyProperties.PlainBodyThenTail | uos_activpal/io/raw.py:219-236 | plain groups, then a complete tail marker, then anything give exactly the plain groups' triplets |
| BodyProperties.TailStopsScan | uos_activpal/io/raw.py:234-236 | at a tail marker the result is the rows emitted so far |
| BodyProperties.InvalidGroupRepeatsPrevious | uos_activpal/io/raw.py:228-240 | (255, 255, 255) appends exactly one copy of the previous row, or overflows a full buffer |
| BodyProperties.RunLength | uos_activpal/io/raw.py:243-246 | z + 1 copies before firmware 218, z from 218 on |
| BodyProperties.NormalGroupStep | uos_activpal/io/raw.py:250-254 | a sample group with room in the buffer appends its own triplet and the scan moves on one group |
| BodyProperties.RunLengthGroupRepeatsPrevious | uos_activpal/io/raw.py:219-249 | (0, 0, z) that is no tail appends exactly RunLength(z) copies of the previous row (none for z = 0 from firmware 218 on), or overflows; when the marker test reads past the end instead, the scan fails with that error |
| BodyProperties.RunLengthGroupClassifies | uos_activpal/io/raw.py:219-226 | in a .datx body, for z = 0, or with eight bytes left, a run-length group is read without error |
| BodyProperties.DatRunBeforeLastGroup | uos_activpal/io/raw.py:222-254 | the scan of the .dat body [0, 0, 5, 1, 2, 3] does not fail: it emits RunLength(5) zero rows (six before firmware 218, five from 218 on) and then (1, 2, 3); Decode then pads the buffer with zero rows |
| BodyProperties.MatchFromLocal | uos_activpal/io/raw.py:219-226 | the tail test reads only the bytes the marker covers |
| BodyProperties.ClassifyLocal | uos_activpal/io/raw.py:215-232 | the kind of a group depends only on the bytes the marker covers from it |
| BodyProperties.ScanIgnoresBytesAfterTail | uos_activpal/io/raw.py:214-236 | a scan ending at a tail marker gives the same result on any body that agrees up to the end of the marker |
| BodyProperties.ScanCapacityIrrelevant | uos_activpal/io/raw.py:207-254 | a successful scan is unchanged by any buffer size that holds its rows |
| BodyProperties.DecodeIgnoresBytesAfterTail | uos_activpal/io/raw.py:214-236 | no byte after the tail marker affects the result |
| BodyProperties.NoFullRunIsNoOversizedGroup | uos_activpal/io/raw.py:243-249 | a body with no aligned (0, 0, 255) group has no oversized group |
| BodyProperties.BoundedGroupsFrom | uos_activpal/io/raw.py:207-249 | when no group the scan reaches stands for more than 255 rows (from firmware 218 on always; before, every full run starts or follows a tail marker), at most 255 rows are emitted per group passed, and the buffer never overflows |
| BodyProperties.DecodeNeverOverflows | uos_activpal/io/raw.py:207-249 | from firmware 218 on, or when every aligned (0, 0, 255) group starts or follows a tail marker, the decoder never overflows its buffer |
| BodyProperties.FullRunsAtOrAfterTailAreHarmless | uos_activpal/io/raw.py:222-236 | before firmware 218, a .dat body whose full runs start and follow the tail marker meets that hypothesis and decodes to no rows |
| BodyProperties.FullRunOverflowsBuffer | uos_activpal/io/raw.py:243-249 | in a .datx body, before firmware 218, a single (0, 0, 255) group needs 256 rows and overflows the 255-row buffer (in a .dat body the same group is a read past the end, DatRunAtEndReadsPastEnd) |
| BodyProperties.DatRunAtEndReadsPastEnd | uos_activpal/io/raw.py:224-226 | in a .dat body, a final (0, 0, z) with z > 0 sends the tail test past the end |
| BodyProperties.MatchFromShift | uos_activpal/io/raw.py:222-226 | the tail test at offset i is the same test on the bytes from i |
| BodyProperties.InlineTailIsOldTailCheck | uos_activpal/io/raw.py:174-177 | the inline .dat tail test at offset i is _old_tail_check on the bytes from i, errors included |
| Header.Firmware | uos_activpal/io/raw.py:128 | header[39] * 255 + header[17], whose quotient and remainder by 255 give back both bytes while the low byte is below 255 |
| Header.FirmwareLowByteOverlaps | uos_activpal/io/raw.py:128 | a low byte of 255 reads like the next high byte with a low byte of 0 |
| Header.FirmwareInjectiveBelow255 | uos_activpal/io/raw.py:128 | with low bytes below 255, equal firmware values mean equal byte pairs |
| Header.BitDepth | uos_activpal/io/raw.py:130-135 | 10 exactly when header[38] >= 128, else 8 |
| Header.ResolutionCode | uos_activpal/io/raw.py:130-135 | header[38] with the depth flag removed: header[38] mod 128 |
| Header.DepthAndCodeRecoverByte | uos_activpal/io/raw.py:130-135 | bit depth and resolution code together give back header[38] |
| Header.Resolution | uos_activpal/io/raw.py:137-138 | 2^(code+1) for codes 0, 1, 2 and None for any other code |
| Header.Axes | uos_activpal/io/raw.py:142-143 | 3 for code 0, 1 for code 1, None otherwise |
| Header.StartCondition | uos_activpal/io/raw.py:154-155 | a label exactly for codes 0, 1, 2 |
| Header.StopCondition | uos_activpal/io/raw.py:157-159 | a label exactly for codes 0, 3, 64, 128 |
| Header.StartConditionRoundTrip | uos_activpal/io/raw.py:154-155 | every start label names one code |
| Header.StopConditionRoundTrip | uos_activpal/io/raw.py:157-159 | every stop label names one code |
| Header.ValidTimestamp | uos_activpal/io/raw.py:145-149 | a valid date-time has a day from 1 to 31 and a time of day under 86400 seconds, and 29 February only in a leap year |
| Header.Seconds | uos_activpal/io/raw.py:151 | seconds since 0001-01-01 are non-negative; divided by 86400 they give the day number and the remainder is the time of day |
| Header.DaysInMonth | uos_activpal/io/raw.py:145-149 | every month has between 28 and 31 days |
| Header.YearLength | uos_activpal/io/raw.py:151 | counting days from 0001-01-01, each year adds 366 days in a leap year and 365 otherwise |
| Header.LeapDays | uos_activpal/io/raw.py:151 | the Gregorian leap-day count grows by one exactly at a leap year |
| Header.SecondsOrderIsCalendarOrder | uos_activpal/io/raw.py:145-151 | seconds since the epoch order date-times as the calendar does, and are equal only for equal date-times |
| Header.NonZeroChars | uos_activpal/io/raw.py:161 | every non-zero byte's character is in the result and every character in it is that of a non-zero byte; never longer than the bytes |
| Header.NonZeroCharsOfByte | uos_activpal/io/raw.py:161 | a single byte gives nothing when it is 0 and its own character otherwise; with NonZeroCharsAppend this fixes the result and its order |
| Header.NonZeroCharsAppend | uos_activpal/io/raw.py:161 | dropping zero bytes distributes over concatenation |
| Header.FileCodeBytes | uos_activpal/io/raw.py:161 | the slice 512:520, clipped like a slice to the header, so at most 8 bytes |
| Header.FileCode | uos_activpal/io/raw.py:161 | the file code has at most 8 characters and no NUL |
| Header.DeviceId | uos_activpal/io/raw.py:165-167 | the composite id is non-negative and bounded by its digit weights |
| Header.DeviceIdOfDigits | uos_activpal/io/raw.py:162-167 | for header[14] below 3 and hexadecimal-digit bytes 40, 11, 12, 13, the leading digit is header[10] % 10 and the five lower places are header[14] * 10000 plus the hexadecimal number |
| Header.DeviceIdLeadingDigit | uos_activpal/io/raw.py:162-167 | when the other five bytes sum to less than 100000, the leading digit is the year's last digit header[10] % 10 and the rest is those bytes' sum |
| Header.StartTimestamp | uos_activpal/io/raw.py:145-146 | start year header[261] + 2000, so between 2000 and 2255 |
| Header.StopTimestamp | uos_activpal/io/raw.py:148-149 | stop year header[267] + 2000, so between 2000 and 2255 |
| Header.ExtractMetadata | uos_activpal/io/raw.py:128-171 | HeaderTooShort exactly below 281 bytes, then an invalid start date, then an invalid stop date; on success valid date-times, a duration positive exactly when stop is after start and zero exactly when they are equal, a file code of at most 8 characters, and the resolution of header[38] mod 128 |
| Header.MetadataReadsFirst520Bytes | uos_activpal/io/raw.py:128-171 | headers that agree on bytes 0..519 give the same metadata |
| ChangeCode.AsciiBytes | uos_activpal/io/raw.py:69 | one byte per character, with its character code |
| ChangeCode.NewCodeBytes | uos_activpal/io/raw.py:66-69 | codes longer than 8 are refused first, then non-ASCII codes; otherwise exactly 8 bytes, the code followed by NULs |
| ChangeCode.PatchFileCode | uos_activpal/io/raw.py:71-73 | bytes 512..519 become the new bytes and every other byte is unchanged; a shorter file is zero-filled up to offset 512 and grows to 520 bytes |
| ChangeCode.ChangeFileCode | uos_activpal/io/raw.py:66-73 | in place on the file's byte array: on an error nothing is written, otherwise the array becomes PatchFileCode of its old contents |
| ChangeCode.ReadBackCodeBytes | uos_activpal/io/raw.py:69 | dropping the NULs from the padded bytes of a NUL-free code gives the code |
| ChangeCode.PatchThenReadFileCode | uos_activpal/io/raw.py:69-73 | after a change with a code without NUL characters, the file code read back from the header is the new code |
| ChangeCode.NulInCodeIsDropped | uos_activpal/io/raw.py:69-73 | a code with a NUL character is accepted, but reads back without it: "A" followed by NUL reads back as "A" |
| ChangeCode.PatchChangesOnlyFileCode | uos_activpal/io/raw.py:71-73 | for a header of at least 281 bytes and a code without NUL characters, after a change the metadata equals the old metadata except for the new file code, and an error stays the same error |
| Loader.HeaderEnd | uos_activpal/io/raw.py:279-286 | 1024 exactly for .datx, 1023 exactly for .dat, an error for any other extension |
| Loader.Split | uos_activpal/io/raw.py:292-294 | header and body together are the whole content; the header is the first header_end bytes, or all of a shorter file |
| Loader.IsDatx | uos_activpal/io/raw.py:294 | the decoder's datx flag is set exactly for the extension with the 1024-byte header, and otherwise a known extension is the 1023-byte .dat |
| Loader.LoadActivpalData | uos_activpal/io/raw.py:279-294 | an unknown extension is an error; on success the metadata is extract_metadata of the header part, and the rows are the body part decoded with the header's firmware and the .datx flag |
| Loader.LoadErrorOrder | uos_activpal/io/raw.py:292-294 | a header error is reported before anything about the body |
| Loader.DatxTailFirstGivesNoRows | uos_activpal/io/raw.py:292-294 | a .datx file whose body starts with the marker has no rows |
| Loader.ChangeCodeThenLoad | uos_activpal/io/raw.py:292-294 | for any content holding the file code field and a code without NUL characters, changing the file code leaves the rows unchanged, and the metadata unchanged but for the new code |

## Left out

- File I/O is not part of this model: `np.fromfile`, `os.path.isfile` and its `FileNotFoundError`, and `open`, `seek` and `write`. Content is a byte sequence, and the extension is a given string; `os.path.splitext` is not modelled.
- `extract_metadata_from_file` is left out: it only reads at most 1024 bytes and calls `extract_metadata`.
- `ActivpalData` and the GUI (`uos_activpal/gui/`) are left out: they are floating point, pandas and widget code.
- ChangeCode.ChangeFileCode: the in-place method requires a file of at least 520 bytes. Growing a shorter file is left to the value-level PatchFileCode, because an `array` cannot grow in place.
- ChangeCode.NewCodeBytes: the length limit at `uos_activpal/io/raw.py:67` is an `assert`, which `python -O` removes. The model always refuses a code longer than eight characters; under `-O` such a code would be written in full, past offset 519.
- ChangeCode.NewCodeBytes: a `new_code` that is not a `str` is not modelled. The source's `str(new_code)` discards its result, and `len` is then taken of the original object.
- Decoder.ExtractAccelerometerData: the model raises `ReadPastEnd` and `BufferOverflow` where the plain Python code raises `IndexError`. Under the numba `@jit` decorator, with bounds checking off, those accesses are undefined instead.
- Header.ExtractMetadata: NumPy 2 (NEP 50) promotion is not modelled. There, `uint8 * 255` would wrap modulo 256; the model uses NumPy 1.x semantics, where the arithmetic is exact.
- BodyProperties.DecodeIgnoresBytesAfterTail: the other body must be at least as long, or its buffer must hold the decoded rows. A shorter body has a smaller buffer.
- Header.DeviceId: its contract only bounds the id. What the digits mean is stated by DeviceIdLeadingDigit, and only for byte values whose weighted sum stays below 100000, because larger bytes overlap the leading digit.
- Header.StartCondition: its contract says when a label exists. The labels themselves are tied to their codes by StartConditionRoundTrip.
- Header.StopCondition: same as StartCondition, with StopConditionRoundTrip.
