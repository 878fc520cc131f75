# A verified model of fixedformat

This project models the record codec of fixedformat and the stateful code around it: decoding and
encoding fixed-format records driven by a layout, the leaf codecs (display, packed, zoned, binary,
hexadecimal, text and edited numbers), the copybook, JSON and template front-ends that produce
layouts, record framing and streaming, the paged and resumable scan, multi-record files, the columnar
shredding of decoded values, and the ranged reader over a remote object.

Functions specify; methods are the source's loops over buffers, stacks, cursors and fields, each
proved equal to a specification or against a stated property. The properties that span operations are
lemmas about the specifications.

How the pieces fit:

- `Prelude`, `Radix`, `Utf8`, `Strings`, `Ebcdic`, `CodePage037`: bytes, digits, text and transcoding.
- `DisplayNumber`, `Packed`, `Zoned`, `BinaryInt`, `Hex`, `Edited`, `Leaf`: the codec of one field.
- `Layouts`, `Decode`, `Encode`: the layout and the two recursive walks. Decoding also lists its reads
  and encoding its writes, with their addresses, so that the frame argument is about lists.
- `Normal`: the normal form of a row, every value in its field's own type and scale, and the domain of
  rows a record can store. `RoundTrip`: values to
  bytes to values. `Overlay`: bytes to values to bytes, overlays included. `Addressing`, `Describe`:
  where bytes are read and written in contiguous and in static layouts.
- `Picture`, `LevelTree`, `Families`, `Copybook`, `CopybookLimits`, `OverlayLimits`, `JsonSpec`,
  `Template`: the front-ends and where their laws stop.
- `Framing`, `RecordWriter`, `Stream`, `Reader`, `RangeReader`, `Pipeline`: files.
- `Arrow`, `Columns`, `MultiRecord`: columns, unions and record types.

Where the code and its documentation disagree, the model follows the code:

- `crates/fixedformat-core/src/encode.rs:7-8` says only the first variant of an overlay is written;
  lines 150-152 write all of them, the last one winning.
- `crates/fixedformat-core/src/copybook.rs:323-327` says SYNC alignment is measured from the start of
  the record; the code measures it from the start of the sibling list.
- `crates/fixedformat-core/src/copybook.rs:647-650` calls `P` zero-width; a display picture's byte
  width counts it as a digit position.

Laws that the code does not keep for every input are stated with their exact condition: display
integers lose an embedded sign (`DisplayNumber.IntRoundTrip`), binary integers wrap
(`BinaryInt.RoundTrip`), rescaling wraps at 128 bits (`Leaf.RescaleExact`), an inserted `0` in an
edit mask is read as a digit and a sign inside the mask is read only while what stands outside it is
suppressed (`Edited.RoundTrip`), descriptor lengths are cut to 16 bits
(`RecordWriter.SplitAssembled`), moved-out columns (`Reader.MovingIsPicking`), repeated field names
in a column type (`Arrow.PlainExactly`), discriminators too narrow for their tag
(`MultiRecord.SelectStamped`), template groups with a counted group inside, which are refused
(`Template.GroupToken`), pictures of too many digits or with scaling positions in a mask
(`Picture.PictureHolds`), magnitudes that encode but exceed what decoding accepts
(`Packed.RoundTrip`, `Zoned.RoundTrip`), overlay variants whose last writer leaves bytes that read
otherwise (`RoundTrip.OverlayRoundTrip`), redefined dynamic tables that widen a group and
redefinitions that overhang the next item (`Copybook.CopybookLaid`). Siblings of one name are
encoded from one value, so re-encoding a record asks that they agree (`Overlay.BytesRoundTrip`).
Concrete copybooks and rows are in `CopybookLimits` and `OverlayLimits`.

Modelling choices: every error is one failure value; where the original would panic (an empty count
code in a template, a struct column without fields, offsets that wrapped) the model fails too.
128-bit, 64-bit, 32-bit and 16-bit narrowing is written out where it happens; sizes and offsets
(`usize`) are unbounded. A record's encoding is any pair of inverse maps on bytes; code page 037 is
shown to be one. A byte source is a list of events (pieces, interruptions, failures) chosen freely; an
object store answers from a list of prefix lengths and failures chosen freely. A resumed producer is a
fresh one at the saved location and record count, over unchanged locations.

## Model

| member | source | states |
|---|---|---|
| `RoundTrip.RoundTrip` | crates/fixedformat-core/src/encode.rs:24-229 | For every layout whose siblings are in order (groups, fixed tables, tables depending on a field, fillers, any nesting) and every row in its domain, in either encoding, encoding succeeds and decoding the record gives the row in normal form: integers and decimals at the fields' scales, texts without their padding, whatever type the values had |
| `RoundTrip.NumbersComeBack` | crates/fixedformat-core/src/encode.rs:310-328 | Integers and decimals of any scale given to decimal and edited fields come back from the record at the fields' scales as the same numbers, w * 10^from = u * 10^to, or cut toward zero where a field has fewer decimals |
| `Strings.SameNameExact` | crates/fixedformat-core/src/encode.rs:50-56 | Names match when they differ at most in the case of ASCII letters |
| `RoundTrip.RoundTripExact` | crates/fixedformat-core/src/decode.rs:21-194 | Rows already in normal form, each table as long as its controller says, come back unchanged |
| `RoundTrip.DecodeHeld` | crates/fixedformat-core/src/decode.rs:36-194 | Any layout, overlays included: a buffer that holds every planned write, whatever else it holds, decodes to the normal form |
| `RoundTrip.DecodeAlike` | crates/fixedformat-core/src/decode.rs:36-194 | Any layout, any buffer: decoding gives the normal form of the values exactly when every leaf the plan wrote reads from the buffer as it would from its own bytes |
| `RoundTrip.HeldExactly` | crates/fixedformat-core/src/encode.rs:150-152 | The finished record holds every field of a plan exactly when the last write over each byte of a field agrees with that field |
| `RoundTrip.AgreementIsPairwise` | crates/fixedformat-core/src/encode.rs:150-152 | When no filler is in the way, that is exactly when the fields agree pairwise on every byte they share |
| `RoundTrip.OverlayRoundTrip` | crates/fixedformat-core/src/encode.rs:24-229 | For any layout, overlays included, a row in the domain always encodes, and decodes to its normal form exactly when every leaf reads from the bytes the last writes leave of it as from its own; byte-for-byte agreement, which is when the record holds every field, is enough but not needed |
| `RoundTrip.OrderedAgrees` | crates/fixedformat-core/src/encode.rs:62-128 | In an ordered layout the last writes always agree, so every leaf reads back |
| `RoundTrip.ReplaySeq` | crates/fixedformat-core/src/decode.rs:36-62 | Decoding a sibling list from any buffer gives the normal form exactly when the buffer reads alike wherever the plan wrote, and then consumes what the plan consumed, reads each leaf where it was written, and leaves the same table lengths in scope |
| `RoundTrip.PlansSeq` | crates/fixedformat-core/src/encode.rs:62-79 | On the domain encoding never fails, every write fills its field exactly, and the end is the sum of actual sizes |
| `RoundTrip.OrderedSeq` | crates/fixedformat-core/src/encode.rs:62-128 | The dynamic shift keeps the static order: an ordered layout never writes backwards |
| `RoundTrip.PutAllHolds` | crates/fixedformat-core/src/encode.rs:239-259 | Ordered writes into the growing buffer all survive |
| `RoundTrip.PutAllFrame` | crates/fixedformat-core/src/encode.rs:245-248 | Writes at or after an address leave every earlier byte alone |
| `Normal.ExactNormSeq` | crates/fixedformat-core/src/encode.rs:50-56 | Rows with every field present, in order, under distinct names are their own normal form |
| `Overlay.BytesRoundTrip` | crates/fixedformat-core/src/encode.rs:138-153 | For every layout, overlays and repeated names included, when siblings of one name carry one value, re-encoding a decoded record whose leaves are canonical gives the same bytes exactly when uncovered bytes are zero and nothing trails |
| `Overlay.OrderedBytesRoundTrip` | crates/fixedformat-core/src/encode.rs:24-79 | In an ordered layout of well-shaped leaves a decoded record is restored exactly when every leaf read is canonical, uncovered bytes are zero and nothing trails |
| `Overlay.DistinctMeets` | crates/fixedformat-core/src/layout.rs:58-73 | Distinct names at every level meet the conditions on names: no decoded siblings of one name ever disagree |
| `Overlay.RewriteSeq` | crates/fixedformat-core/src/decode.rs:31-62 | Encoding what was decoded succeeds exactly when every leaf read can be encoded again, and then writes the recoding of every leaf at the address it was read from, variants that share bytes included |
| `Overlay.PutAllCopies` | crates/fixedformat-core/src/encode.rs:245-248 | Writes that each copy their bytes of a record rebuild every covered byte of it, in any order and with any overlap |
| `Addressing.DecodeReadsInOrder` | crates/fixedformat-core/src/decode.rs:43-61 | In a contiguous layout decoding reads every byte once, in order, each field starting where the bytes of the one before it end, and never past the record |
| `Addressing.ListBounded` | crates/fixedformat-core/src/decode.rs:99-126 | A decoded list never has more elements than bytes are left in the record |
| `Addressing.EncodeIsSerial` | crates/fixedformat-core/src/encode.rs:62-128 | On a contiguous layout the in-place encoder with its offsets, shifts and buffer growth computes the plain concatenation of the leaf encodings |
| `Addressing.TightOrdered` | crates/fixedformat-core/src/layout.rs:58-73 | Contiguous layouts are ordered ones |
| `Addressing.TightStaticEnd` | crates/fixedformat-core/src/layout.rs:180-192 | The static end of contiguous siblings is the sum of their reserved widths |
| `Describe.DescribedIsRead` | crates/fixedformat-core/src/describe.rs:43-68 | In a layout without variable tables the decoder never shifts, consumes exactly the record length, and reads every described leaf at the offset reported for it |
| `Describe.ReadsStaticSeq` | crates/fixedformat-core/src/decode.rs:36-62 | Decoding static siblings consumes their static extent and reads exactly the static addresses |
| `Describe.Describe` | crates/fixedformat-core/src/describe.rs:37-68 | The recursive walk lists paths, depths and absolute offsets in declaration order, fillers left out |
| `Describe.DescribedPath` | crates/fixedformat-core/src/describe.rs:43-68 | A described field's path is the names that lead to it through its groups, joined by points, and its depth one less than their number |
| `Decode.ReadRecord` | crates/fixedformat-core/src/decode.rs:21-26 | The imperative decoder computes the specification, the length check included |
| `Decode.ShortRefused` | crates/fixedformat-core/src/layout.rs:193-206 | A record shorter than a layout of fixed length is refused |
| `Layouts.VariableExactly` | crates/fixedformat-core/src/layout.rs:178-213 | A layout is variable exactly when some field at any depth depends on another |
| `Decode.ReadSeq` | crates/fixedformat-core/src/decode.rs:36-62 | The sibling loop with its shift, end and mutable scope equals the specification and leaves its scope |
| `Decode.ReadField` | crates/fixedformat-core/src/decode.rs:66-98 | A table takes its length from its controller; no controller, a negative or too large one is an error |
| `Decode.TableLength` | crates/fixedformat-core/src/decode.rs:66-127 | A decoded table has as many elements as declared, or as its controller holds, never more than the declared maximum, and no empty element |
| `Decode.ControllerCounts` | crates/fixedformat-core/src/decode.rs:43-61 | A sibling decoded as an integer sets the length of every table that depends on its name in any letter case, refused when negative or above the maximum |
| `Decode.ReadItems` | crates/fixedformat-core/src/decode.rs:99-127 | The element loop; an element of zero bytes is refused |
| `Decode.ReadOne` | crates/fixedformat-core/src/decode.rs:131-202 | A group recurses; a leaf that reaches past the record is an error |
| `Encode.WriteRecord` | crates/fixedformat-core/src/encode.rs:24-48 | The imperative encoder computes the specification; a field without a column is an error |
| `Encode.MissingRefused` | crates/fixedformat-core/src/encode.rs:24-48 | A field that is no filler and has no column of its name in any letter case makes the record an error |
| `Layouts.LookupFirst` | crates/fixedformat-core/src/encode.rs:50-56 | A field takes the first value of its name, NULL when there is none |
| `Encode.WriteSeq` | crates/fixedformat-core/src/encode.rs:62-79 | The sibling loop leaves the buffer with exactly the planned writes put into it |
| `Encode.WriteField` | crates/fixedformat-core/src/encode.rs:85-128 | A table writes its list; a fixed one is cut or filled with NULLs to its length |
| `Encode.WriteItems` | crates/fixedformat-core/src/encode.rs:107-127 | The element loop writes elements one behind the other |
| `Encode.WriteOne` | crates/fixedformat-core/src/encode.rs:130-229 | A group writes all its members, overlays included, later ones over earlier ones; a leaf writes its encoding |
| `Encode.PutAllConcat` | crates/fixedformat-core/src/encode.rs:245-248 | Two plans put one after the other are one plan |
| `Encode.Buffer.Ensure` | crates/fixedformat-core/src/encode.rs:239-243 | The buffer grows with zeros up to an end and never shrinks |
| `Encode.Buffer.Write` | crates/fixedformat-core/src/encode.rs:245-248 | Exactly the addressed stretch changes, after growing as far as needed |
| `Encode.Buffer.Fill` | crates/fixedformat-core/src/encode.rs:250-259 | The loop over a filler overwrites its width with one byte |
| `Encode.Put` | crates/fixedformat-core/src/encode.rs:239-248 | The buffer after a write, byte by byte |
| `Leaf.ExactRoundTrip` | crates/fixedformat-core/src/encode.rs:155-229 | Every value exact for its field kind is stored in exactly the field width and decodes to itself |
| `Leaf.RoundTrip` | crates/fixedformat-core/src/encode.rs:155-229 | Storable values, those of another type or scale and NULLs included, decode to their form in the field's own type |
| `Leaf.StoredExactly` | crates/fixedformat-core/src/encode.rs:155-229 | A value that has a form in the field's type is stored and comes back in that form exactly when it is storable |
| `Leaf.RescaleExact` | crates/fixedformat-core/src/encode.rs:321-328 | Rescaling gives the same number at the new scale, cut toward zero where decimals are dropped, exactly when 128 bits hold the result and the power of ten divided by has not wrapped too low |
| `Leaf.NumberStored` | crates/fixedformat-core/src/encode.rs:206-229 | What a decimal or edited field gives back for an integer or a decimal of another scale is the number at the field's scale, cut toward zero where it has fewer decimals |
| `Leaf.CoercedEncodes` | crates/fixedformat-core/src/encode.rs:276-328 | Fields other than text and hexadecimal ones write a value as they write its form in their own type |
| `Leaf.TextStored` | crates/fixedformat-core/src/decode.rs:212-222 | Any scalar whose text fits a text field comes back as that text without its padding, or filled up with padding in a field that is not trimmed |
| `Leaf.HexStored` | crates/fixedformat-core/src/encode.rs:430-459 | Hexadecimal text in either letter case and with blanks comes back in lower case, zero-filled to the field |
| `Leaf.IntegersTaken` | crates/fixedformat-core/src/encode.rs:287-298 | An integer field takes integers, decimals without decimals, NULL as 0 and text that parses, and nothing else |
| `Strings.ParseIntExact` | crates/fixedformat-core/src/encode.rs:292-296 | What parses as an integer: digits with one sign in front or none, denoting a number within the bounds |
| `Strings.WhitespaceExact` | crates/fixedformat-core/src/encode.rs:292-296 | The 25 characters that trimming takes off |
| `Leaf.IntegerTextTaken` | crates/fixedformat-core/src/encode.rs:287-298 | The text of any 128-bit integer is taken as that integer |
| `Leaf.DecimalShown` | crates/fixedformat-core/src/value.rs:36-51 | A decimal as text: a minus when negative, at least one digit, a point and as many digits as its scale; without the point the digits are the magnitude, with no needless zero in front |
| `Leaf.ScalarsShown` | crates/fixedformat-core/src/encode.rs:276-285 | Texts as themselves, flags as true and false, and nothing for what is no scalar |
| `Leaf.FlagRead` | crates/fixedformat-core/src/decode.rs:164 | A flag reads false only in a byte 0 and in the character 0, and is written as 1 or 0 |
| `Leaf.KeptExactly` | crates/fixedformat-core/src/encode.rs:155-229 | The values a well-shaped leaf stores and gives back are exactly its exact values |
| `Leaf.DefaultExact` | crates/fixedformat-core/src/encode.rs:276-319 | What NULL is stored as is itself a value the field stores exactly |
| `Leaf.CanonicalRoundTrip` | crates/fixedformat-core/src/decode.rs:146-193 | Canonical bytes of every kind of leaf survive decoding and encoding, text with any pad that is not trimmed included |
| `Leaf.CanonicalExact` | crates/fixedformat-core/src/decode.rs:146-222 | The bytes of a well-shaped leaf decode and encode back to themselves exactly when they are canonical, a condition on the bytes alone: well-formed text without an inner NUL, digits with a canonical sign, the encoder's sign nibble or overpunch, an image that agrees with its mask |
| `Utf8.WellFormedExact` | crates/fixedformat-core/src/decode.rs:212-222 | Bytes are the encoding of some string, namely of what they read as, exactly when every lead byte is followed by the tail it announces |
| `Leaf.TextRoundTrip` | crates/fixedformat-core/src/decode.rs:212-222 | Text that fits and is not edged by its padding survives justification, padding and trimming |
| `DisplayNumber.EncodeIntExact` | crates/fixedformat-core/src/encode.rs:330-359 | A display integer encodes exactly when it has enough digits and its sign is written or allowed; the bytes are its zero-padded digits with the sign character |
| `DisplayNumber.IntRoundTrip` | crates/fixedformat-core/src/encode.rs:352-357 | An encoded integer reads back exactly when it is within 64 bits and its sign is stored: an embedded sign is dropped |
| `DisplayNumber.EncodeDecimalExact` | crates/fixedformat-core/src/encode.rs:361-377 | The same for display decimals, with the precision check |
| `DisplayNumber.DecimalRoundTrip` | crates/fixedformat-core/src/decode.rs:238-250 | An encoded display decimal reads back exactly when it is within 128 bits and its sign is stored |
| `DisplayNumber.ParseImage` | crates/fixedformat-core/src/decode.rs:224-277 | What either parser reads from the stored image of a number |
| `DisplayNumber.ImageAt` | crates/fixedformat-core/src/encode.rs:330-359 | Byte by byte: 43 or 45 first or last where the sign stands apart, and 48 plus a digit everywhere else, from the highest down |
| `DisplayNumber.BlanksAreZero` | crates/fixedformat-core/src/decode.rs:224-250 | A field of blanks is 0 |
| `DisplayNumber.IntBytesRoundTrip` | crates/fixedformat-core/src/decode.rs:224-236 | Bytes survive parsing and encoding exactly when they are digits with a canonical sign character and not a negative zero |
| `Packed.DecodeBytes` | crates/fixedformat-core/src/packed.rs:22-48 | The nibble loop computes the signed value, or fails on a bad digit, a bad sign or overflow |
| `Packed.EncodeBytes` | crates/fixedformat-core/src/packed.rs:53-90 | The digit loop over the nibble array computes the packed image or the width error |
| `Packed.RoundTrip` | crates/fixedformat-core/src/packed.rs:53-90 | Encoding succeeds exactly when the width is positive and the magnitude is below 10^(2w-1), and decodes back exactly when the magnitude fits 128 bits and the sign is kept |
| `Packed.EncodeAt` | crates/fixedformat-core/src/packed.rs:62-90 | Nibble by nibble: digits from the highest down, the high nibble of a byte first, and F, D or C in the last for an unsigned field, a negative and any other number |
| `Packed.DecodeExact` | crates/fixedformat-core/src/packed.rs:22-48 | Packed bytes are read exactly when every nibble but the last is a digit, the last is A to F and the magnitude fits 128 bits; B and D make the number negative |
| `Packed.BytesRoundTrip` | crates/fixedformat-core/src/packed.rs:22-90 | Decodable bytes are restored exactly when their sign nibble is the one encoding writes |
| `Zoned.DecodeBytes` | crates/fixedformat-core/src/zoned.rs:17-36 | The digit loop with its overpunched last byte computes the signed value or fails |
| `Zoned.EncodeBytes` | crates/fixedformat-core/src/zoned.rs:40-62 | The loop from the last digit computes the zoned image or the width error |
| `Zoned.RoundTrip` | crates/fixedformat-core/src/zoned.rs:40-92 | The same two exact conditions with 10^w and overpunched digits |
| `Zoned.EncodeAt` | crates/fixedformat-core/src/zoned.rs:40-62 | Byte by byte: the digits as characters from the highest down, the last of a signed field overpunched: { and A to I for a positive, } and J to R for a negative number |
| `Zoned.OverpunchLetters` | crates/fixedformat-core/src/zoned.rs:73-93 | Which letter is which digit and sign, written and read; plain digits are positive |
| `Zoned.OverpunchExact` | crates/fixedformat-core/src/zoned.rs:73-83 | No other byte is accepted as a last digit |
| `CodePage037.EbcdicRestored` | crates/fixedformat-core/src/ebcdic.rs:8-56 | Every EBCDIC byte survives the way through both tables of code page 037 |
| `CodePage037.AsciiRestored` | crates/fixedformat-core/src/ebcdic.rs:8-56 | Every ASCII or Latin-1 byte does too |
| `CodePage037.Lossless` | crates/fixedformat-core/src/ebcdic.rs:1-6 | The tables are one of the lossless pairs that every law about encodings quantifies over |
| `CodePage037.ZonedInEbcdic` | crates/fixedformat-core/src/encode.rs:216-217 | A zoned number in an EBCDIC record: a digit in the low nibble of each byte, zone F, and C or D in the last for the sign |
| `Zoned.BytesRoundTrip` | crates/fixedformat-core/src/zoned.rs:17-92 | Decodable bytes are restored exactly when their last byte is the one encoding writes |
| `BinaryInt.RoundTrip` | crates/fixedformat-core/src/encode.rs:388-398 | Encoding keeps the number modulo 2^(8w); parsing gives the representative in the field range, the number itself exactly when it is in that range |
| `BinaryInt.BytesRoundTrip` | crates/fixedformat-core/src/decode.rs:279-299 | Every byte string of one to eight bytes, in either order and signedness, survives parsing and encoding |
| `BinaryInt.ParseRange` | crates/fixedformat-core/src/decode.rs:279-299 | Parsing lands in the field range, congruent modulo 2^(8w) to the sum of the bytes times 256 to the bytes behind (big-endian) or before (little-endian); a signed number is negative exactly when the first, or the last, byte has its top bit |
| `BinaryInt.EncodeAt` | crates/fixedformat-core/src/encode.rs:388-398 | Byte i stored is the number divided by 256^(w-1-i) (big-endian) or 256^i (little-endian), downwards for negative numbers, modulo 256 |
| `Hex.ShowBytes` | crates/fixedformat-core/src/decode.rs:356-375 | The loop over bytes shows two digits each in the chosen nibble order |
| `Hex.ShownAt` | crates/fixedformat-core/src/decode.rs:356-375 | Byte j shows as its two digits, the high nibble first in big-endian order and last in little-endian order |
| `Hex.EncodeText` | crates/fixedformat-core/src/encode.rs:430-459 | The loop over digit pairs, zero-filled; odd, foreign or too many digits are errors |
| `Hex.JoinedAt` | crates/fixedformat-core/src/encode.rs:430-459 | Byte j has the first of its two digits in the high nibble in big-endian order and in the low one in little-endian order; bytes without digits are 0 |
| `Hex.HexDigitRead` | crates/fixedformat-core/src/encode.rs:441-455 | The digits 0 to f by value, in either letter case |
| `Hex.RoundTrip` | crates/fixedformat-core/src/encode.rs:430-459 | Accepted text is shown back lower-case, blanks dropped, padded with zeros |
| `Hex.BytesRoundTrip` | crates/fixedformat-core/src/decode.rs:356-375 | Every byte string survives showing and encoding |
| `Edited.EncodeMask` | crates/fixedformat-core/src/edited.rs:56-134 | Digit count, floating symbols and width are checked before the mask is walked; through a legal mask every byte is what its position calls for |
| `Edited.Walk` | crates/fixedformat-core/src/edited.rs:80-134 | The mask loop with its suppression flag computes the rendering |
| `Edited.EncodeShows` | crates/fixedformat-core/src/edited.rs:80-134 | Position by position, told from the mask and the number alone: the point is 46, / is 47, $ is 36, 0 is 48, B is blank, signs and markers by the sign, a comma 44 or the fill among leading zeros, and a digit position its digit or the fill of a leading zero |
| `Edited.EncodeExact` | crates/fixedformat-core/src/edited.rs:56-134 | Encoding succeeds exactly when no symbol floats and the number fits the digit positions, and yields mask-length bytes |
| `Edited.ReadBack` | crates/fixedformat-core/src/edited.rs:27-39 | Suppression removes leading zeros only: the digits shown give the magnitude back exactly when no inserted 0 follows a non-zero digit |
| `Edited.RoundTrip` | crates/fixedformat-core/src/edited.rs:27-134 | Decoding recovers the number exactly when no inserted 0 is misread, it fits 128 bits, and a negative number has a signed field and its sign symbol first or last (or a CR or DB last) among the symbols that do not come out blank |
| `Edited.NegativeShown` | crates/fixedformat-core/src/edited.rs:41-49 | A negative number reads as negative exactly when its sign stands at an edge of what is not suppressed |
| `Edited.UnsignedMaskLosesSign` | crates/fixedformat-core/src/edited.rs:43-49 | A mask without any sign symbol never gives a negative number back |
| `Edited.InnerSignLost` | crates/fixedformat-core/src/edited.rs:43-49 | A concrete mask with its sign inside: -5 comes back and -15 does not |
| `Edited.BytesRoundTrip` | crates/fixedformat-core/src/edited.rs:27-134 | Bytes survive decoding and encoding exactly when they agree with the mask symbol by symbol, no inserted 0 is misread, the number fits and is no negative zero |
| `Edited.ReadMaskInverts` | crates/fixedformat-core/src/edited.rs:80-134 | Holding bytes against the mask gives the digits that render to exactly these bytes, and nothing when no digits do |
| `Edited.InsertedZeroMisread` | crates/fixedformat-core/src/edited.rs:107 | A concrete number whose inserted 0 is read back as a digit |
| `Framing.SplitLines` | crates/fixedformat-core/src/framing.rs:53-70 | The line loop computes the lines, a carriage return before the feed dropped, a last line kept verbatim |
| `Framing.LineEnds` | crates/fixedformat-core/src/framing.rs:53-70 | A line ends before the first byte 10 and gives up one byte 13 before it |
| `Framing.SplitRdw` | crates/fixedformat-core/src/framing.rs:88-114 | The descriptor loop computes the records or fails on a short or overlong descriptor |
| `Framing.DescriptorRead` | crates/fixedformat-core/src/framing.rs:88-97 | A descriptor says 256 times its first byte plus its second, and is refused below 4 |
| `Framing.SplitBlocked` | crates/fixedformat-core/src/framing.rs:116-142 | The block loop computes the records of all blocks or fails |
| `Framing.SplitBlock` | crates/fixedformat-core/src/framing.rs:127-138 | The inner loop over one block is descriptor splitting of the block alone |
| `Framing.SplitRecords` | crates/fixedformat-core/src/framing.rs:44-85 | Dispatch over the four framings |
| `RecordWriter.Assemble` | crates/fixedformat-worker/src/record_writer.rs:42-80 | The append loops build the framed body; blocked framing writes a single block; descriptor lengths are narrowed to 16 bits |
| `RecordWriter.RdwStarts` | crates/fixedformat-worker/src/record_writer.rs:57-80 | The first record stands behind four bytes: its length plus four, high byte first, and two zeros |
| `RecordWriter.SplitAssembled` | crates/fixedformat-worker/src/record_writer.rs:42-80 | Splitting an assembled body returns the records exactly when the framing can carry them |
| `RecordWriter.LinesBack` | crates/fixedformat-core/src/framing.rs:53-70 | Newline framing: exactly when no record contains a line feed or ends in a carriage return |
| `RecordWriter.FixedBack` | crates/fixedformat-core/src/framing.rs:72-85 | Fixed framing: exactly when every record has the positive record length |
| `RecordWriter.RdwBack` | crates/fixedformat-core/src/framing.rs:99-114 | Descriptor framing: exactly when every record has at most 65531 bytes |
| `RecordWriter.BlockedBack` | crates/fixedformat-core/src/framing.rs:116-142 | Blocked framing: exactly when the whole block with its descriptors is at most 65535 bytes |
| `RecordWriter.RdwConserves` | crates/fixedformat-core/src/framing.rs:99-114 | Whatever splits was made of the records plus four bytes each |
| `RecordWriter.BlockedConserves` | crates/fixedformat-core/src/framing.rs:116-142 | Whatever splits into blocks has room for the records, their descriptors and the block descriptors |
| `Stream.Source.FillBuf` | crates/fixedformat-core/src/stream.rs:96-103 | A fill or an interruption never changes the bytes still to come |
| `Stream.Source.Read` | crates/fixedformat-core/src/stream.rs:204-215 | A short read takes a prefix of the bytes to come, none only at the end |
| `Stream.ReadUntilCapped` | crates/fixedformat-core/src/stream.rs:89-131 | Up to and including the delimiter whatever the fills; a delimiter within the cap is always reached; the buffer never exceeds the cap by more than one fill |
| `Stream.ReadFull` | crates/fixedformat-core/src/stream.rs:204-215 | A full record or everything left, whatever the reads |
| `Stream.ReadToEnd` | crates/fixedformat-core/src/stream.rs:280-288 | Everything left |
| `Stream.LimitReader.Read` | crates/fixedformat-core/src/stream.rs:68-84 | Passes bytes on while their total is within the limit and fails beyond it |
| `Stream.ReadLimited` | crates/fixedformat-core/src/stream.rs:62-84 | Reading everything through the limit succeeds exactly when there is no more than the limit |
| `Stream.RecordStream.Next` | crates/fixedformat-core/src/stream.rs:302-373 | Yields the next record of the data or, after a failure, one error and then nothing ever |
| `Stream.RecordStream.NextOfLines` | crates/fixedformat-core/src/stream.rs:304-338 | One line, stripped as the slice splitter strips it |
| `Stream.RecordStream.NextOfFixed` | crates/fixedformat-core/src/stream.rs:339-369 | One fixed record; a ragged tail is one error |
| `Stream.Open` | crates/fixedformat-core/src/stream.rs:249-297 | The stream opened over a source has exactly the items of its remaining bytes, whatever the source goes on to do; a bad record length or a bad descriptor file is refused |
| `Stream.Collect` | crates/fixedformat-core/src/stream.rs:299-373 | Draining a stream yields its items, or a prefix of them followed by one error when the source fails or a line is too long |
| `Stream.FixedItemsAreChunks` | crates/fixedformat-core/src/stream.rs:339-369 | A ragged fixed file yields all full records and then a single error |
| `Stream.ReadAllRecords` | crates/fixedformat-core/src/stream.rs:249-373 | For every way the source splits its bytes and interrupts, the stream yields exactly what the slice splitter yields; a failing source or a line over the cap can only cut that short with one error |
| `Reader.ReadAll` | crates/fixedformat-worker/src/reader.rs:196-221 | The eager loops compute the rows of all locations or fail at the first error |
| `Reader.Producer.Reopen` | crates/fixedformat-worker/src/reader.rs:307-337 | Replaying the records already seen reaches exactly the saved position |
| `Reader.Producer.TakeRecord` | crates/fixedformat-worker/src/reader.rs:342-351 | A record taken is the first row of what was ahead; an error means nothing was ahead |
| `Reader.Producer.NextLocation` | crates/fixedformat-worker/src/reader.rs:352-357 | A drained location contributes nothing more |
| `Reader.Producer.NextBatch` | crates/fixedformat-worker/src/reader.rs:302-364 | A batch is the next 2048 rows or all that are left; it fails exactly when an error comes before that many rows; none exactly at the end |
| `Reader.SavedPosition` | crates/fixedformat-worker/src/reader.rs:366 | What is ahead depends on the saved position alone |
| `Reader.Scan` | crates/fixedformat-worker/src/reader.rs:302-367 | For any number of calls, any of them resumed, the batches are the eager rows without gap or duplicate, every batch but the last exactly full, and the scan ends |
| `Reader.FieldNamed` | crates/fixedformat-worker/src/reader.rs:269-283 | The first field of a name ignoring case |
| `Reader.Projection` | crates/fixedformat-worker/src/reader.rs:269-283 | Every output column is mapped to a field of its name ignoring case; exactly a column without such a field is an error |
| `Reader.ProjectionDistinct` | crates/fixedformat-worker/src/reader.rs:269-283 | Output columns with distinct names never share a field |
| `Reader.MoveOut` | crates/fixedformat-worker/src/reader.rs:171-181 | Moving values out of a row leaves a later column of the same field NULL |
| `Reader.MovingIsPicking` | crates/fixedformat-worker/src/reader.rs:162-181 | Moving equals picking for every row exactly when no two columns share a field |
| `Reader.BuildBatch` | crates/fixedformat-worker/src/reader.rs:164-188 | A batch is built exactly when it has a column, every type is supported and every cell conforms; every cell then reads back as the projected value in its column type |
| `Arrow.BuildArray` | crates/fixedformat-worker/src/arrow_map.rs:100-212 | Succeeds exactly when the type is supported and every cell conforms, and then every row reads back as its conformed value |
| `Arrow.BuildList` | crates/fixedformat-worker/src/arrow_map.rs:214-243 | Items end to end, 32-bit offsets and validity from which every list row is read back |
| `Arrow.BuildStruct` | crates/fixedformat-worker/src/arrow_map.rs:245-280 | One child column per field looked up by name, and validity, from which every struct row is read back |
| `Arrow.BuildDecimals` | crates/fixedformat-worker/src/arrow_map.rs:160-176 | Succeeds exactly on numbers and NULLs for a type the library holds; each cell is the number at the column's scale, cut toward zero where the column has fewer decimals, exactly when 128 bits hold it |
| `Arrow.ConformScaled` | crates/fixedformat-worker/src/arrow_map.rs:293-300 | The same of the value one cell becomes |
| `Arrow.BuildInts` | crates/fixedformat-worker/src/arrow_map.rs:113-124 | Integers, and unscaled decimals narrowed to 64 bits; anything else is refused |
| `Arrow.IntCell` | crates/fixedformat-worker/src/arrow_map.rs:113-124 | A decimal without decimals becomes the 64-bit integer that differs from it by a multiple of 2^64; one with decimals is refused |
| `Arrow.BuildStrings` | crates/fixedformat-worker/src/arrow_map.rs:102-112 | Text, and any other value by its display form |
| `Arrow.BuildBools` | crates/fixedformat-worker/src/arrow_map.rs:149-159 | Booleans only |
| `Arrow.ValueAt` | crates/fixedformat-worker/src/value_in.rs:56-104 | The recursive reader with its loops reads the cell: NULL by validity, list items through the offsets, struct pairs field by field |
| `Arrow.ExactWhenTyped` | crates/fixedformat-worker/src/arrow_map.rs:100-280 | Shredding and reading back is the identity on a value exactly when it is of the column type |
| `Arrow.RepeatedNameCollapses` | crates/fixedformat-worker/src/arrow_map.rs:251-256 | In any struct with two fields of one name the second field's value is lost |
| `Arrow.PlainExactly` | crates/fixedformat-worker/src/arrow_map.rs:100-280 | Every value of a column type comes back unchanged exactly when no struct anywhere in the type repeats a field name |
| `Arrow.FlatStretch` | crates/fixedformat-worker/src/arrow_map.rs:214-233 | Between two offsets stand exactly one row's items |
| `Arrow.BuildUnion` | crates/fixedformat-worker/src/table/read_multi.rs:337-365 | Type ids and full-length children, the value in the active child and NULL in the others |
| `Arrow.UnionAt` | crates/fixedformat-worker/src/value_in.rs:25-53 | The tag by type id and the active child's struct, NULL as no fields |
| `Arrow.UnionRoundTrip` | crates/fixedformat-worker/src/value_in.rs:25-53 | Reading a union column back gives every row its own tag and fields |
| `Columns.DecodedReadsBack` | crates/fixedformat-worker/src/arrow_map.rs:26-97 | Whatever its bytes, a decoded record is of the layout's column types and survives shredding, when names are distinct in every group |
| `Columns.TypedSeq` | crates/fixedformat-worker/src/arrow_map.rs:48-97 | Decoded siblings have one value of the declared type per column, in order |
| `Columns.DecimalColumn` | crates/fixedformat-worker/src/arrow_map.rs:59-98 | A decimal column has the precision of its field, at least 1 and at most 38, and its scale as a signed byte |
| `MultiRecord.EncodeDiscriminator` | crates/fixedformat-core/src/multirecord.rs:163-173 | The discriminator is as wide as declared and holds, in ASCII, the bytes of the tag from its first byte on and 32 behind them |
| `MultiRecord.TaggedBytes` | crates/fixedformat-worker/src/buffering/write_multi.rs:53-79 | A stamped record byte by byte: the tag and blanks in the discriminator's place, the encoded record everywhere else, zeros where it grew |
| `MultiRecord.EncodeMultiBatch` | crates/fixedformat-worker/src/buffering/write_multi.rs:53-79 | Every row is encoded by its variant and stamped, grown with zeros when too short; an unknown tag fails the batch |
| `MultiRecord.Find` | crates/fixedformat-core/src/multirecord.rs:153-155 | The first record type of a tag |
| `MultiRecord.SelectStamped` | crates/fixedformat-core/src/multirecord.rs:179-206 | With distinct tags a stamped record is selected as its own type exactly when its tag is trimmed and fits the discriminator, or its type is the fallback and what the stamp reads as is no tag |
| `MultiRecord.ShownTagExact` | crates/fixedformat-core/src/multirecord.rs:163-188 | What a stamp reads as is the tag itself exactly when the tag is trimmed and fits, a tag cut inside a character included |
| `Utf8.LossyOfCut` | crates/fixedformat-core/src/multirecord.rs:179-188 | A string's bytes cut off anywhere read as its whole characters and one replacement character for a cut one |
| `MultiRecord.LongTagLost` | crates/fixedformat-core/src/multirecord.rs:163-173 | A concrete tag too long for the discriminator, whose records are not recognised |
| `MultiRecord.MultiRoundTrip` | crates/fixedformat-worker/src/buffering/write_multi.rs:53-79 | Nothing but fillers under the discriminator: a stamped record, of a variant with overlays too, selects its own type and decodes to the normal form of its fields exactly when every leaf reads back from what the last writes leave of it, always so in an ordered layout |
| `MultiRecord.TaggedRoundTrip` | crates/fixedformat-core/src/multirecord.rs:163-206 | The same from the layout alone, when fillers at static addresses cover the discriminator and the siblings, whatever overlaps inside them, are in order |
| `MultiRecord.StampKeeps` | crates/fixedformat-worker/src/buffering/write_multi.rs:69-75 | Stamping over fillers leaves every field reading as it did, overlaid fields included |
| `MultiRecord.CoveredIsClear` | crates/fixedformat-worker/src/buffering/write_multi.rs:69-75 | Fillers that cover a stretch among ordered siblings keep every other field off it, overlays inside a sibling included |
| `LevelTree.BuildTree` | crates/fixedformat-core/src/copybook.rs:259-298 | The loop with its path and level stacks builds the reference forest, navigating in bounds at every push |
| `LevelTree.TreeOfStatements` | crates/fixedformat-core/src/copybook.rs:259-298 | The forest's preorder is the statement list, every parent is the nearest earlier statement of a smaller level, and no other leveled forest has that preorder |
| `LevelTree.ForestParents` | crates/fixedformat-core/src/copybook.rs:266-287 | Parents by position are the nearest earlier statements of a smaller level |
| `LevelTree.ForestUnique` | crates/fixedformat-core/src/copybook.rs:259-289 | A leveled forest is determined by its preorder |
| `LevelTree.SpineIncreasing` | crates/fixedformat-core/src/copybook.rs:267-275 | The level stack stays strictly increasing |
| `LevelTree.PushIsInsert` | crates/fixedformat-core/src/copybook.rs:276-287 | Popping to the first smaller level and pushing there inserts the statement, and the path is in bounds and leads to it |
| `LevelTree.ForestSnoc` | crates/fixedformat-core/src/copybook.rs:266-287 | Reading one more statement inserts it under the deepest last node of a smaller level |
| `Picture.ExpandLoop` | crates/fixedformat-core/src/copybook.rs:590-614 | The repeat loop writes out every counted symbol or fails on a bad count |
| `Picture.ExpandRepeat` | crates/fixedformat-core/src/copybook.rs:590-614 | A symbol with a count in parentheses stands for that many symbols, one without for itself |
| `Picture.TallyLoop` | crates/fixedformat-core/src/copybook.rs:616-718 | The symbol loop counts, or refuses an unknown symbol or half a marker: digits before and behind the point, scaling positions, currency and sign symbols, text bytes, and the byte symbols in order |
| `Picture.PictureSays` | crates/fixedformat-core/src/copybook.rs:447-563 | A picture is accepted exactly when its symbols are known and do not mix text with digits; its field has as many decimals as digits stand behind the point or scale, a sign exactly when S, +, -, CR or DB occurs, the fewest packed bytes for its digits and sign, 2, 4 or 8 binary bytes at 4 and 9 digits, a byte a digit or symbol otherwise |
| `Picture.TallyCounts` | crates/fixedformat-core/src/copybook.rs:616-718 | The tallies are counts over the written-out symbols, split at the first V or point |
| `Picture.PictureShaped` | crates/fixedformat-core/src/copybook.rs:447-546 | A picture gives a field the leaf codec can serve exactly when it is text or binary or packed, or has a digit and floats no symbol |
| `Picture.PictureHolds` | crates/fixedformat-core/src/copybook.rs:447-546 | A picture's field holds every number of the picture's digits exactly when a packed one has fewer than 256 digits, a binary one at most 18, and an edited one neither scaling positions nor a floating symbol |
| `Picture.CompHolds` | crates/fixedformat-core/src/copybook.rs:557-563 | A binary item holds all numbers of its digits exactly up to 18 digits |
| `Picture.MaskCounted` | crates/fixedformat-core/src/copybook.rs:616-731 | The mask is one the edited codec can walk, its symbol counts are the tallied ones, and its digit positions with the scaling positions are all the digits |
| `Copybook.LayoutLoop` | crates/fixedformat-core/src/copybook.rs:302-373 | The loop with its cursor, furthest end and table of starts computes the layout |
| `Copybook.LowerLoop` | crates/fixedformat-core/src/copybook.rs:28-39 | From statements to a layout, a single group's members being the record |
| `Copybook.SingleRecord` | crates/fixedformat-core/src/copybook.rs:28-39 | One statement with only deeper ones behind it is the record, and its members are the fields |
| `Copybook.SeveralRecords` | crates/fixedformat-core/src/copybook.rs:28-39 | A lone statement, or statements of which a later one is no deeper than the first, are all fields of the record |
| `Copybook.LaidNesting` | crates/fixedformat-core/src/copybook.rs:302-308 | Nothing nested more than 64 deep is lowered |
| `Copybook.Placement` | crates/fixedformat-core/src/copybook.rs:317-370 | Every item stands right behind the one before it, a SYNC binary item on the next multiple of its width and less than its width further, a redefinition at its target, with the kind and width of its storage; the width is the static end |
| `Copybook.Align` | crates/fixedformat-core/src/copybook.rs:329-333 | The least multiple of the boundary not before the cursor |
| `Copybook.RedefinesLowered` | crates/fixedformat-core/src/copybook.rs:302-434 | With REDEFINES, chains of them included, the items survive folding one for one at their offsets, the items that redefine nothing stay apart, the width reported is the static end exactly when the dynamic tables of families fit in it, and the siblings are in order exactly when no family reaches past the head of a later one |
| `Copybook.LayoutLosesNothing` | crates/fixedformat-core/src/copybook.rs:302-434 | Whenever a sibling list lowers at all, names repeated and REDEFINES chained as they may be, no item is lost unless a family is headed by a group with a member of its own name |
| `Copybook.LevelsLowered` | crates/fixedformat-core/src/copybook.rs:302-434 | Both equivalences hold at every level of a copybook, nested REDEFINES included |
| `Copybook.LevelsWide` | crates/fixedformat-core/src/copybook.rs:302-434 | The reported width and the width of every group at every level, the groups made of families included, are static ends exactly when dynamic tables fit among the siblings and in their own families everywhere |
| `Copybook.LevelsWellNamed` | crates/fixedformat-core/src/copybook.rs:377-434 | Distinct names among all siblings stay distinct at every level, in the groups made of families too |
| `Copybook.LayoutLaid` | crates/fixedformat-core/src/copybook.rs:302-373 | Without REDEFINES, names repeated or not, the fields are the items themselves, in order at every level, group widths and the width reported being static ends |
| `Copybook.CopybookLaid` | crates/fixedformat-core/src/copybook.rs:28-39 | For whole copybooks, REDEFINES at any depth and chains of them included: all group widths, those of family groups too, and the record length are static ends exactly when the dynamic tables of families fit everywhere; siblings are in order at every level exactly when no family reaches past the head of a later one |
| `Copybook.CopybookOrdered` | crates/fixedformat-core/src/copybook.rs:28-39 | A copybook without REDEFINES lowers to a layout in order at every level with the record length reported |
| `Copybook.CopybookRoundTrip` | crates/fixedformat-core/src/copybook.rs:28-39 | For every accepted copybook, REDEFINES included, a row in the domain encodes, and decodes to its normal form exactly when every leaf reads back from what the last writes leave of it, always so without REDEFINES |
| `Copybook.CopybookBytesRoundTrip` | crates/fixedformat-core/src/copybook.rs:28-39 | For every accepted copybook, REDEFINES and repeated names such as FILLER included, a decoded record of canonical leaves in which siblings of one name carry one value is restored exactly when its slack is zero; distinct names at every level never disagree |
| `CopybookLimits.OverhangAccepted` | crates/fixedformat-core/src/copybook.rs:354-368 | A concrete accepted copybook whose redefinition overhangs the next item: its siblings are not in order |
| `CopybookLimits.DynamicUnionWidens` | crates/fixedformat-core/src/copybook.rs:355-369 | A concrete accepted copybook whose redefined dynamic table makes the static end exceed the width reported |
| `OverlayLimits.OverlayRowLost` | crates/fixedformat-core/src/encode.rs:150-152 | A concrete copybook with one byte redefined by another: a row comes back exactly when both items hold the same character |
| `OverlayLimits.DisagreementSurvives` | crates/fixedformat-core/src/encode.rs:150-152 | Concrete writes of a packed number and of a text over it that disagree in the sign nibble and are both read back |
| `OverlayLimits.RepeatedNameLost` | crates/fixedformat-core/src/encode.rs:62-68 | A concrete copybook with two items of one name: the record is restored exactly when both hold the same byte |
| `Families.FoldRedefines` | crates/fixedformat-core/src/copybook.rs:377-434 | The loop replacing a base by its growing group computes the folding; an offset before the group would underflow |
| `Families.FoldGroups` | crates/fixedformat-core/src/copybook.rs:377-427 | When redefined names are unique, folding gives, for each field that heads a family in order, its family: the head first, every redefinition of it in order, as wide as the widest; a redefinition of a redefinition heads a family of its own |
| `Families.FoldLosesNothing` | crates/fixedformat-core/src/copybook.rs:377-434 | Whenever folding succeeds, whatever the names and targets, the folded fields spread out again are the input fields, each exactly once at its own offset, if no head of a family is a group with a child of its own name |
| `Families.FoldKeepsEnd` | crates/fixedformat-core/src/copybook.rs:399-412 | Folding never lowers the static end, and keeps it exactly when every dynamic table that redefines or is redefined fits, full, within it |
| `Families.FoldKeepsOrder` | crates/fixedformat-core/src/copybook.rs:377-434 | The folded siblings are in order exactly when no family reaches past the head of a later one |
| `Families.HolderWidth` | crates/fixedformat-core/src/copybook.rs:399-412 | A group made of a family is never narrower than the static end of its members, and as wide exactly when each dynamic member is no wider than some member that is none |
| `Families.ChainStaysApart` | crates/fixedformat-core/src/copybook.rs:406-410 | A redefinition of a redefinition joins no group and stays a sibling |
| `Families.NamesakeAbsorbs` | crates/fixedformat-core/src/copybook.rs:389-417 | A redefined group with a child of its own name is taken for a family and the redefinition joins its children |
| `JsonSpec.LayoutLoop` | crates/fixedformat-core/src/jsonspec.rs:83-118 | The loop with its offset and threaded counter computes the lowered list |
| `JsonSpec.JsonLaid` | crates/fixedformat-core/src/jsonspec.rs:66-118 | Every accepted list lowers to a contiguous ordered layout whose record length is the width reported |
| `JsonSpec.ParseKeeps` | crates/fixedformat-core/src/jsonspec.rs:91-118 | Every field comes out once, in order, with the name, repetitions and storage given, at every level |
| `JsonSpec.ParseAccepts` | crates/fixedformat-core/src/jsonspec.rs:83-118 | A specification is accepted exactly when groups nest at most 64 deep and every other field has a storage |
| `JsonSpec.TypeKinds` | crates/fixedformat-core/src/jsonspec.rs:133-233 | Which type names stand for which kind of field, in any letter case, and that no other name is accepted |
| `JsonSpec.TypeWidths` | crates/fixedformat-core/src/jsonspec.rs:133-255 | How many bytes each kind takes: packed digits halved plus one, a byte a digit, one more for a sign of its own, else the width |
| `JsonSpec.TypeOptions` | crates/fixedformat-core/src/jsonspec.rs:120-233 | Each kind carries the signedness, sign, order, justification and padding its own options name |
| `JsonSpec.OptionsNamed` | crates/fixedformat-core/src/jsonspec.rs:121-125 | The byte order, side and padding the option values name |
| `JsonSpec.PadCharacter` | crates/fixedformat-core/src/jsonspec.rs:264-275 | Any other single ASCII character pads with itself |
| `JsonSpec.SignNamed` | crates/fixedformat-core/src/jsonspec.rs:277-290 | The sign kind the option values name |
| `JsonSpec.UnnamedAreNumbered` | crates/fixedformat-core/src/jsonspec.rs:92-96 | Unnamed fields are numbered from 1 in reading order through all nesting |
| `JsonSpec.AutoNamed` | crates/fixedformat-core/src/jsonspec.rs:92-96 | A numbered name is field_ and the number in decimal |
| `JsonSpec.JsonRoundTrip` | crates/fixedformat-core/src/jsonspec.rs:66-118 | Records of an accepted specification are concatenations of their leaves and read back |
| `Template.TokenizeLoop` | crates/fixedformat-core/src/template.rs:51-83 | The character loop with its depth computes the tokens or fails on unbalanced parentheses |
| `Template.TokenizeNormalises` | crates/fixedformat-core/src/template.rs:48-83 | Tokens are non-empty, balanced and without blanks outside parentheses, and joined with blanks they split into themselves |
| `Template.JoinedTokenize` | crates/fixedformat-core/src/template.rs:48-83 | Any list of such tokens is what its joined text splits into |
| `Template.CloseLoop` | crates/fixedformat-core/src/template.rs:101-117 | The depth-counting loop stops at the end of the shortest beginning in which as many parentheses close as open, and finds none exactly when no beginning is balanced |
| `Template.ShortestBalanced` | crates/fixedformat-core/src/template.rs:101-117 | The same of the scan the group parser is specified by: the text up to it is balanced and no shorter beginning is |
| `Template.ParseLoop` | crates/fixedformat-core/src/template.rs:127-227 | The token loop with its offset, order and counter computes the fields |
| `Template.ScalarToken` | crates/fixedformat-core/src/template.rs:210-224 | A token that is no group is one field with its own or the next numbered name, repeated as its code says |
| `Template.GroupToken` | crates/fixedformat-core/src/template.rs:192-208 | A token in parentheses is a group of the fields inside, laid out from 0 in big-endian order and repeated by the count behind it; a counted group anywhere inside makes it refused |
| `Template.CountedToken` | crates/fixedformat-core/src/template.rs:148-190 | A code, a slash and a group are an integer named after the table with _count behind, and a table of as many groups as it says |
| `Template.NameWritten` | crates/fixedformat-core/src/template.rs:85-97 | What stands before the first colon is the name when no parenthesis and no slash comes before it |
| `Template.NoName` | crates/fixedformat-core/src/template.rs:88-97 | A token without a colon has no name of its own |
| `Template.GroupWritten` | crates/fixedformat-core/src/template.rs:99-123 | A balanced body in parentheses is found whole, and what follows is its count |
| `Template.CodeWritten` | crates/fixedformat-core/src/template.rs:246-415 | A code with a count and an order of its own: text, digits and fillers take the count as width, integers and flags as repetitions |
| `Template.ElementCodes` | crates/fixedformat-core/src/template.rs:307-412 | The integer codes by width, sign and byte order |
| `Template.StretchableCodes` | crates/fixedformat-core/src/template.rs:275-306 | The text, hexadecimal and filler codes by padding and nibble order |
| `Template.ControlOrders` | crates/fixedformat-core/src/template.rs:229-236 | The order each control token sets |
| `Template.PicturesRead` | crates/fixedformat-core/src/template.rs:239-247 | A body starting with 9, X or S9 is a display picture |
| `Template.TemplateLaid` | crates/fixedformat-core/src/template.rs:42-227 | Every accepted template lowers to a contiguous ordered layout as wide as reported, each dynamic table right behind the integer field that holds its length |
| `Template.TokensShorter` | crates/fixedformat-core/src/template.rs:101-123 | The tokens of a group body are together shorter than the group, so the recursion ends |
| `Template.TemplateRoundTrip` | crates/fixedformat-core/src/template.rs:42-227 | Records of an accepted template are concatenations of their leaves and read back |
| `RangeReader.Store.GetRange` | crates/fixedformat-worker/src/cloud.rs:530-550 | A store may answer with any non-empty prefix of the range; a range past the end cannot be answered |
| `RangeReader.Reader.Refill` | crates/fixedformat-worker/src/cloud.rs:520-582 | A fetch strictly advances the position and keeps the count delivered; an empty object reads as its end |
| `RangeReader.Reader.Read` | crates/fixedformat-worker/src/cloud.rs:518-590 | Delivers the next bytes of the object, none exactly at its end, and a failure delivers nothing |
| `RangeReader.Reader.Conserved` | crates/fixedformat-worker/src/cloud.rs:481-500 | Delivered bytes and the unread chunk are exactly the bytes fetched |
| `RangeReader.ReadObject` | crates/fixedformat-worker/src/cloud.rs:518-590 | For any buffer sizes and any answers the bytes delivered are the object and then the end |
| `Pipeline.FileRoundTrip` | crates/fixedformat-worker/src/record_writer.rs:24-73 | Rows encoded, framed so that the framing carries them, streamed and decoded are the same rows in normal form exactly when the leaves of every row read back from what the last writes leave of them, always so in an ordered layout |

## Left out

- Decode.ReadOne: floating-point leaves (16, 32 and 64 bits; bit-level IEEE work) and date, time and timestamp leaves (calendar arithmetic of an unseen library).
- Encode.WriteOne: the same floating-point and date leaves.
- Leaf.ExactRoundTrip: the same leaf kinds have no values here.
- Leaf.RoundTrip: the same leaf kinds have no values here.
- Arrow.BuildArray: the column types of those leaves and the small integer types; what comes back is stated for list columns of at most 2^31 - 1 items in all.
- Arrow.ValueAt: the column types of those leaves.
- JsonSpec.LayoutLoop: a specification with a floating-point or date type is refused here.
- JsonSpec.JsonLaid: the same specifications.
- JsonSpec.JsonRoundTrip: the same specifications.
- Template.ParseLoop: a template with a floating-point or date code is refused here.
- Template.TemplateLaid: the same templates.
- Template.TemplateRoundTrip: the same templates.
- Leaf.CanonicalRoundTrip: the same leaf kinds are absent.
- Leaf.CanonicalExact: the same leaf kinds are absent.
- Overlay.BytesRoundTrip: a filler table of dynamic length must be empty, since a filler has no value and the encoder writes none of its elements, and no field may have the name of a filler table.
- Overlay.RewriteSeq: the same two conditions on filler tables.
- Copybook.RedefinesLowered: a redefined name must be unique among its siblings, and a group that heads a family must have no member of its own name; `Families.NamesakeAbsorbs` shows what folding does to such a group.
- Copybook.LevelsLowered: the same conditions at every level.
- Copybook.LevelsWide: the same conditions at every level.
- Copybook.CopybookLaid: the same conditions at every level.
- Families.FoldGroups: the same conditions.
- Families.FoldLosesNothing: the condition on groups with a child of their own name only.
- Stream.ReadAllRecords: which lines over the cap are refused depends on where a fill ends; for a source with such a line only a prefix of the items, then possibly one error, is promised.
- The labels and SQL types of described fields.
- The copybook statement scanner (comments, clauses, VALUE, level 88) and JSON text: the front-ends start from parsed statements and field objects.
- gzip and zstd decoding; only the limit on decompressed bytes is modelled.
- Overflow of `usize` sizes and offsets, and memory limits.
- Column metadata, SQL registration, option parsing, URLs, secrets and network access.
- Error message texts.
