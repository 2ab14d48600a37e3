# SCSU coder, modelled in Dafny

This project models `scsu.js`, a JavaScript implementation of the Standard
Compression Scheme for Unicode (Unicode Technical Standard #6). The coder is
one object. Its fields hold the window state: eight dynamic window offsets,
the selected window, the round-robin counter for new windows, the Unicode-mode
flag, the index of a pending SCU tag, and the input cursor and output. Two
public operations drive that state:

- `encode` turns UTF-16 code units into SCSU bytes. It alternates single-byte
  runs and Unicode runs. Between runs it selects, quotes or defines a window,
  or starts a Unicode run.
- `decode` turns SCSU bytes back into code units.

The model follows the object's form:

- `ScsuCoder.Scsu` is a class with the same fields. `dynamicOffset` is an
  `array` updated in place, and `aOut` is a sequence the methods append to
  and patch.
- Every loop of the source is a `while` loop with its invariants.
- Each method is proved against specification functions in three modules:
  - `ScsuWindows`: the window offset arithmetic of both sides.
  - `ScsuDecoding`: the decoder as a function of the byte stream. It proceeds
    one tag at a time, with the window state (and Unicode mode) as a value.
  - `ScsuEncoding`: the bytes of each kind of run and command the encoder
    writes. Each is proved to decode back to the code units it stands for.
- `ScsuTables` holds the tag bytes, the offset tables, the error kinds and the
  small pure helpers.

The headline results are the contracts of the two public methods:

- `Decode(str)` returns exactly `Decoding(str)`, the functional decoder.
- `Encode(s)` succeeds on every input without surrogates, and its output
  decodes back to `s`. It fails only with the single-byte run's surrogate
  errors.

The source has several quirks, and the model reproduces each one as written:

- the round-robin counter starts at 3;
- the first fixed window is never chosen;
- a high surrogate as the last unit fails with 0x11;
- the byte 0xF2 is accepted in Unicode mode;
- define, extended-define and quote-Unicode tags cut short by the end of the
  stream end decoding without error;
- a supplementary character below U+18000 placed into window 0 gets a one-byte
  define.

## Model

| member | source | states |
|---|---|---|
| ScsuTables.CharFromTwoBytes | scsu.js:446-449 | the 16-bit value of two bytes, whose high and low bytes are those two bytes again |
| ScsuTables.CombineSurrogates | scsu.js:321 | a surrogate pair's code point is supplementary, and its high and low ten bits are the two surrogates' offsets |
| ScsuWindows.DefineOffset | scsu.js:424-438 | a define argument of 0 fails with 0x14, one in 0xA8..0xF8 fails with 0x15, and no other fails; a successful offset's whole window lies in the BMP outside the gap |
| ScsuWindows.ExtendedWindow | scsu.js:440-444 | an extended define names a window in 0..7 and a 128-aligned offset in 0x10000..0x10FF80 |
| ScsuWindows.FirstWindowFrom | scsu.js:293-298 | the scan of a window table from an index: the first window at or after it that holds the character, or -1 when none does |
| ScsuWindows.LocatedWindow | scsu.js:290-300 | the window the search leaves selected: the selected one when it holds the character, otherwise the first window that does, and the selected one again when none does |
| ScsuWindows.FixedPosition | scsu.js:387-393 | the encoder's search of the fixed offsets: a nonzero result is the first fixed window holding the character; 0 means the first fixed window holds it or none does |
| ScsuWindows.FirstFixedLemma | scsu.js:387-392 | the search loop from any index (`FirstFixedFrom`, the loop at scsu.js:387-392 as a recursive function) returns the first matching index after it, or 0 |
| ScsuWindows.PlacementFor | scsu.js:393-408 | a new window is refused exactly for characters in the gap 0x3400..0xDFFF; otherwise its offset's window holds the character and the position code fits 16 bits |
| ScsuWindows.DefineCommand | scsu.js:409-416 | a position code below 0x100 becomes a short define whose argument is the code; any other becomes an extended define whose two bytes form the code |
| ScsuWindows.PlacementDefinesBmp | scsu.js:396-403 | for a BMP character outside the gap, the position code is a valid short-define argument, and the decoder's offset for it is the offset the encoder stored |
| ScsuWindows.PlacementDefinesExtended | scsu.js:404-408 | for a supplementary character with a two-byte position code, the decoder's extended define gives the same window and offset |
| ScsuWindows.FixedEntryZeroUnused | scsu.js:393 | a character in the first fixed window (0xC0..0x13F) gets an ordinary 128-aligned window, never the position code 0xF9 |
| ScsuWindows.SupplementaryWindowZeroQuirk | scsu.js:404-411 | U+10000 placed in window 0 gets position code 0, which the decoder rejects; U+10080 gets code 1, which the decoder reads as offset 0x80 |
| ScsuWindows.SupplementaryShortDefine | scsu.js:404-411 | a supplementary character gets a one-byte define exactly when it is placed into window 0 and lies below U+18000 |
| ScsuWindows.NoFixedWindowAbove | scsu.js:387-393 | no fixed window holds a supplementary character |
| ScsuDecoding.Emission | scsu.js:187-202 | one byte read through a window yields one or two code units |
| ScsuDecoding.EmissionYieldsCodePoint | scsu.js:193-201 | a byte from 0x80 yields the code point at its offset in the dynamic window; above the BMP, as a surrogate pair that combines back to that code point |
| ScsuDecoding.Define | scsu.js:424-438 | a short define succeeds exactly when its argument is a valid offset, failing with that offset's error otherwise; it moves only window `w`, to that offset, and selects it |
| ScsuDecoding.DefineExtended | scsu.js:440-444 | an extended define moves only the window its argument names, to the offset it names, and selects it |
| ScsuDecoding.Token | scsu.js:170-264 | one decoder step reads between one byte and the rest of the stream, and leaves a well-formed state; its single-byte-mode case is `SingleByteToken` (scsu.js:175-223) and its Unicode-mode case `UnicodeToken` (scsu.js:231-263) |
| ScsuDecoding.TokenExtends | scsu.js:170-264 | a decoder step does not depend on bytes after the ones it consumes |
| ScsuDecoding.ChainRun | scsu.js:169-170 | decoding a stream that starts with complete steps gives their output followed by the rest, decoded from the state they leave |
| ScsuDecoding.ChainAppend | scsu.js:169-170 | two sequences of complete steps in a row form one, with their outputs concatenated |
| ScsuDecoding.ChainValid | scsu.js:169-170 | complete steps from a well-formed state leave a well-formed state |
| ScsuDecoding.ChainDecodes | scsu.js:169-170 | a stream made of complete steps from the initial state decodes to their output |
| ScsuDecoding.ResumesStart | scsu.js:164-170 | decoding starts at index 0 with empty output in the initial window state |
| ScsuDecoding.ResumeStep | scsu.js:169-173 | one pass of the decoder's loop: decoding resumes after the step with its output added, or ends with the output so far, or fails |
| ScsuDecoding.DecodeQuote | scsu.js:176-203 | SQn reads the next byte through static and dynamic window n and keeps the state; as the last byte it fails with 0x11 |
| ScsuDecoding.DecodeDefineExtended | scsu.js:204-208 | SDX redefines and selects the window its two argument bytes name; cut short, it ends decoding with the output so far |
| ScsuDecoding.DecodeDefine | scsu.js:209-220 | SDn redefines window n from its argument and selects it, or fails with the define's error; cut short, it ends decoding with the output so far |
| ScsuDecoding.DecodeSelect | scsu.js:221-230 | SCn selects window n and writes nothing |
| ScsuDecoding.DecodeUnicodeSwitch | scsu.js:231-232 | SCU enters Unicode mode and writes nothing |
| ScsuDecoding.DecodeQuoteUnicode | scsu.js:253-261 | SQU writes the code unit of its two argument bytes; cut short, it ends decoding with the output so far |
| ScsuDecoding.DecodeReserved | scsu.js:262-263 | the reserved tag 0x0C fails the whole call with 0x16 |
| ScsuDecoding.DecodeLiteral | scsu.js:187-203 | any other byte is read through static window 0 or the selected dynamic window |
| ScsuDecoding.DecodeUnicodeSelect | scsu.js:235-237 | in Unicode mode UCn selects window n and returns to single-byte mode |
| ScsuDecoding.DecodeUnicodeDefine | scsu.js:238-241 | in Unicode mode UDn defines window n as SDn does, or fails as it does, and returns to single-byte mode |
| ScsuDecoding.DecodeUnicodeDefineExtended | scsu.js:242-245 | in Unicode mode UDX defines a window as SDX does and returns to single-byte mode; with one argument byte left it ends decoding with the output so far |
| ScsuDecoding.DecodeUnicodeQuote | scsu.js:246-249 | in Unicode mode UQU writes the unit of the next two bytes and stays in Unicode mode; with one byte left it fails with 0x11 |
| ScsuDecoding.DecodeUnicodeUnit | scsu.js:249 | in Unicode mode any other byte is the high byte of a code unit |
| ScsuDecoding.DecodeEnd | scsu.js:251 | the end of the stream ends decoding with the output so far; one byte left in Unicode mode fails with 0x11 |
| ScsuDecoding.DecodingAfter | scsu.js:169-170 | decoding a stream after a complete prefix continues from the state the prefix leaves |
| ScsuDecoding.ReservedByteFails | scsu.js:262-263 | 0x0C read as a tag in single-byte mode makes decoding fail with 0x16, whatever follows |
| ScsuDecoding.QuoteAtEndFails | scsu.js:184 | a quote tag as the last byte makes decoding fail with 0x11 |
| ScsuDecoding.OddTrailingByteFails | scsu.js:233-251 | a single byte left over in Unicode mode makes decoding fail with 0x11 |
| ScsuDecoding.TruncatedCommandEndsQuietly | scsu.js:204-256 | a define, extended define or quote-Unicode tag cut short by the end of the stream ends decoding without error, with the output before it |
| ScsuDecoding.QuoteIsOneShot | scsu.js:171-203 | a quote applies to one byte: decoding after it continues in the state before it, with the same selected window |
| ScsuDecoding.UnicodeModeAcceptsUrs | scsu.js:233-250 | in Unicode mode the reserved byte 0xF2 is not rejected, and is read as the high byte of a code unit |
| ScsuEncoding.SingleByteStep | scsu.js:312-336 | a lone low surrogate fails with 0x12, a high surrogate as the last unit with 0x11, and one before a non-low unit with 0x13; otherwise the character is written, spanning two units exactly for a pair, or it ends the run, which it does exactly when the character (or the pair's code point) is from 0x80 and outside the selected window |
| ScsuEncoding.SingleByteOf | scsu.js:325-336 | a code point is written, or ends the run exactly when it is from 0x80 and outside the selected window; it never fails |
| ScsuEncoding.SingleByteStepDecodes | scsu.js:325-343 | the bytes one step writes decode, in the encoder's window state, to the units it consumed, leaving the state unchanged |
| ScsuEncoding.StopAfterSelect | scsu.js:123-133 | a character that ended the run is written by a run in a window that holds it |
| ScsuEncoding.WindowCharEmits | scsu.js:325-336 | a unit below 0x80, or one in the selected window, is written by the run and does not end it |
| ScsuEncoding.QuoteBytes | scsu.js:351-360 | a quote is SQn followed by a byte from 0x80 exactly when the dynamic window holds the character |
| ScsuEncoding.QuoteBytesDecode | scsu.js:351-361 | a quoted BMP character decodes to itself and leaves the decoder's state as it was |
| ScsuEncoding.SingleByteRun | scsu.js:306-349 | a single-byte run ends at or after where it starts, within the input |
| ScsuEncoding.SingleByteRunEnds | scsu.js:306-349 | a run ends at the end of the input with 0, or at the first step that does not write: with the character that ended it or with its error; a run whose first step writes moves forward |
| ScsuEncoding.SingleByteRunDecodes | scsu.js:306-349 | a whole single-byte run decodes to the units it consumed |
| ScsuEncoding.NextWide | scsu.js:115-121 | the first index at or after `i` holding a unit from 0x80, with only ASCII before it, or the end of the input |
| ScsuEncoding.UnitBytes | scsu.js:374-378 | a unit is written high byte first, after UQU exactly for 0xE000..0xF2FF; its last two bytes form the unit |
| ScsuEncoding.UnitBytesDecode | scsu.js:374-378 | in Unicode mode the bytes of one unit decode to that unit |
| ScsuEncoding.UnicodeBytesDecode | scsu.js:364-382 | in Unicode mode the bytes of a Unicode run (`UnicodeBytes`, each unit's bytes in order) decode to the run's units |
| ScsuEncoding.UnicodeBytesLength | scsu.js:105 | a run writes at least two bytes per unit, so two bytes after SCU are one unit written without escape |
| ScsuEncoding.QuotedUnitDecodes | scsu.js:105-108 | a one-unit run whose SCU became SQU decodes in single-byte mode to that unit and keeps the state |
| ScsuEncoding.DefineCommandDecodes | scsu.js:409-416 | the define command for a BMP character outside the gap redefines the chosen window to the stored offset, selects it and leaves Unicode mode, from either mode |
| ScsuEncoding.DefineCommandDecodesExtended | scsu.js:412-416 | the same for a supplementary character whose position code needs the extended command |
| ScsuEncoding.SelectDecodes | scsu.js:132 | SCn selects window n without output |
| ScsuEncoding.UnicodeSelectDecodes | scsu.js:132-133 | UCn followed by bytes decodes as those bytes in single-byte mode with window n selected |
| ScsuEncoding.UnicodeSwitchDecodes | scsu.js:141-142 | SCU enters Unicode mode without output |
| ScsuEncoding.ProducesAll | scsu.js:149-151 | output that produces the whole input decodes to it |
| ScsuEncoding.ProducesMore | scsu.js:102-145 | bytes that decode by themselves from the state the output leaves extend what the output decodes to |
| ScsuEncoding.SingleByteRunExtends | scsu.js:113 | a single-byte run extends the output's decoding by the units it consumed |
| ScsuEncoding.SelectThenRunExtends | scsu.js:132-133 | UCn written in Unicode mode, then a run whose first step writes, extends the output's decoding by the run's units with window n selected |
| ScsuEncoding.UnicodeRunExtends | scsu.js:104 | SCU and a Unicode run extend the output's decoding by the run's units, in Unicode mode |
| ScsuEncoding.QuotedRunExtends | scsu.js:105-108 | a two-byte Unicode run with SCU patched to SQU is one unit, and extends the output's decoding by it in single-byte mode |
| ScsuEncoding.QuoteExtends | scsu.js:127-128 | a quote extends the output's decoding by the quoted character and keeps the state |
| ScsuEncoding.SelectExtends | scsu.js:132 | SCn extends the output with no units and selects window n |
| ScsuEncoding.DefineExtends | scsu.js:138-139 | a define command for a BMP character outside the gap extends the output with no units, moving and selecting the window and leaving Unicode mode |
| ScsuCoder.Scsu.constructor | scsu.js:279-286 | a new coder starts in the initial state: default dynamic offsets, window 0, counter 3, single-byte mode, no pending SCU |
| ScsuCoder.Scsu.Reset | scsu.js:279-286 | resets to fresh default dynamic offsets, window 0, counter 3, single-byte mode, no pending SCU, cursor 0 |
| ScsuCoder.Scsu.LocateWindow | scsu.js:290-300 | finds a window exactly when one holds the character, and leaves selected the window `LocatedWindow` names: the selected one when it holds it, otherwise the first that does |
| ScsuCoder.Scsu.OutputSingleByteRun | scsu.js:306-349 | writes exactly the run's bytes and moves the cursor to where the run ends, returning its outcome |
| ScsuCoder.Scsu.QuoteSingleByte | scsu.js:351-362 | writes the quote of the character and moves past it; fails with 0x00 after writing SQn when neither window n holds it |
| ScsuCoder.Scsu.OutputUnicodeRun | scsu.js:364-382 | writes the Unicode bytes of the units it passes, stopping at the first index where two compressible units in a row begin (`UnicodeRunEndsAt`) or at the end, and returns the unit it stopped at or the last one written |
| ScsuCoder.Scsu.PositionWindow | scsu.js:384-420 | fails with 0x00 below 0x80; changes nothing and returns false in the gap; otherwise sets only window `iNextWindow % 8` to the placement's offset, selects it, advances the counter and writes the define command |
| ScsuCoder.Scsu.DefineWindow | scsu.js:424-438 | does what the functional decoder's define does to the window state, or fails with its error and changes nothing |
| ScsuCoder.Scsu.DefineExtendedWindow | scsu.js:440-444 | does what the functional decoder's extended define does to the window state |
| ScsuCoder.Scsu.ReadByte | scsu.js:187-202 | the code units of a byte read through the given windows |
| ScsuCoder.Scsu.DecodeUnicodeRun | scsu.js:231-252 | the Unicode-mode loop: its failures are the decoding's failures; otherwise decoding resumes after the command that left Unicode mode |
| ScsuCoder.Scsu.DecodeTag | scsu.js:170-264 | one pass of the decoder's loop agrees with the functional decoder: decoding resumes after it, or its result is the output so far or the error |
| ScsuCoder.Scsu.DecodeArguments | scsu.js:176-261 | the tags with arguments agree with the functional decoder, including the truncated cases that leave the loop |
| ScsuCoder.Scsu.Decode | scsu.js:163-269 | the result is `Decoding`, the functional decoding of the byte stream: the tokens chained from the initial state, or the first error |
| ScsuCoder.Scsu.Encode | scsu.js:96-152 | succeeds on any input without surrogates, with output that decodes back to the input; fails only with 0x11, 0x12 or 0x13 |
| ScsuCoder.Scsu.SingleByteRunPass | scsu.js:113 | writes exactly the bytes of the single-byte run from the cursor in the selected window, stops where that run stops and returns its outcome; the run completes any pending UCn, fails only on surrogates, and otherwise extends the output's decoding by the units it read |
| ScsuCoder.Scsu.UnicodeRunAfterSCU | scsu.js:103-112 | after SCU the run's bytes are appended; SCU becomes SQU, with single-byte mode kept, exactly when the run is two bytes (one unit), and otherwise Unicode mode is entered; the run stops at the first index where two compressible units begin (or at the end), and the output decodes to the units read |
| ScsuCoder.Scsu.RunPass | scsu.js:103-113 | the run that opens a pass: with no SCU pending, exactly the single-byte run's bytes, end point and outcome; with SCU pending, the Unicode run's bytes up to its first stop, SCU turned into SQU exactly when the run is two bytes, and Unicode mode entered otherwise; it moves the cursor forward whenever SCU was pending or a selection was pending, fails only on surrogates, and otherwise leaves output that decodes to the units read |
| ScsuCoder.Scsu.Dispatch | scsu.js:122-144 | for the character the look-ahead chose: below 0x80 or in a dynamic window, the quote from the located window when in single-byte mode and the next unit is in the selected window (which stays selected), else SCn, or UCn in Unicode mode, for the located window, leaving Unicode mode; in both of these the windows and the round-robin counter are unchanged and no SCU is pending; in no dynamic window, what `StaticOrDefined` states; in every case the output decodes to the units read and the next pass reads at least one unit |
| ScsuCoder.Scsu.QuoteStaticOrDefine | scsu.js:134-143 | for a character from 0x80 in no dynamic window (`StaticOrDefined`): in single-byte mode, the quote from the first static window holding it with the selection, the windows and the counter kept; otherwise window `iNextWindow % 8` moved to the placement's offset, selected and defined, the counter advanced and the cursor kept, leaving Unicode mode; or, in the gap, SCU written and pending with the windows, selection, counter, cursor and mode unchanged |
| ScsuCoder.Scsu.LookAhead | scsu.js:115-121 | in single-byte mode the character that ended the run; in Unicode mode the first unit from 0x80 when only ASCII precedes it and it is compressible, otherwise the next unit |
| ScsuCoder.Scsu.SelectOrQuote | scsu.js:123-133 | in single-byte mode with the next unit in the previous window: writes the quote from the located window and restores the previous one; otherwise writes SCn, or UCn in Unicode mode, for the located window and leaves Unicode mode; the output decodes to the units read |
| ScsuCoder.Scsu.QuoteAndRestore | scsu.js:134-137 | writes the quote of the character from the selected window, moves past it, selects the previous window again, and extends the output's decoding by that character |
| ScsuCoder.Scsu.DefineOrStartUnicode | scsu.js:138-143 | for a character in the gap writes SCU and marks it pending, changing no window, selection, counter or mode; otherwise moves window `iNextWindow % 8` to the placement's offset, selects it, advances the counter, writes the define command and leaves Unicode mode; either way the next pass reads a unit |

## Left out

- Error messages: `_ERRORS`, `_errorText` and `SCSUError` (scsu.js:453-485) are left out. A failure is the datatype `Error`, and `Error.Code` gives its numeric code (0x00, 0x11..0x16).
- Strings: `encode`'s input is a sequence of 16-bit code units, as `charCodeAt` returns them. `decode`'s input is a sequence of bytes 0..255, so the negative-byte correction in `_charFromTwoBytes` does not arise.
- Truncated commands in Unicode mode: the source reads past the end of the input after UDX (line 243) and UQU (line 249). The functional decoder treats a UDX with one argument byte as the end of decoding, and a UQU with one argument byte as failure 0x11. `DecodeUnicodeRun` reproduces the effects of those reads on the state: window 0 is defined at 0x10000, and U+0000 is appended before the failure. Neither effect can be observed in the result.
- Fields and plumbing: the scratch field `iOutLen`, the `iInLen` length field, `export default`, the prototype plumbing, the `delete` statements and the commented-out lines 147-148 are left out.
- `Decode` does not store its input in `sIn`: that field holds code units, and decoding reads only its argument.
- The `iWin != -1` test at line 292 is always true, because `iSelectedWindow` is never -1. The model drops it.
- `OutputUnicodeRun` appends a unit's escape and bytes in one step, where the source pushes them one at a time. The resulting output is the same.
- Encode: the round trip is stated only for input without surrogates. The one-byte define the source writes for a supplementary character below U+18000 placed into window 0 (line 409) breaks it; `SupplementaryShortDefine` states when this happens and `SupplementaryWindowZeroQuirk` exhibits it.
- Encode: for input with surrogates, the contract says only which errors can occur, not which inputs succeed. A Unicode run passes lone surrogates through unchecked.
