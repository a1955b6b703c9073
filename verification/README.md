# A verified model of the ch-proto column protocol

ch-proto is a client for ClickHouse's native protocol. This project models its
column codec and the layers around it, and proves what they promise: that a
column written without any row framing is read back exactly, that the compact
layouts expand to the rows they stand for, that two stacked stream adapters are
invisible to what passes through them, and that the text the client prints is
exact. `dafny verify dfyconfig.toml` checks everything.

## How the model is laid out

Bytes are `seq<byte>`. A Rust `String` is a `string` holding one character per
UTF-8 byte. An abort of the program (an index out of range, an overflow in a
build with overflow checks) is the error `Panic`. Every parser on bytes is a
function that returns its value and the bytes it left unread; the readers of the
client are methods of classes, and each is proved to deliver what its parser says
of the bytes ahead, however short the reads of the layers below are. In the same
way the loops of the client (validation, expansion, splitting, long division,
escaping, SQL scanning) are methods proved equal to functions, and the theorems
are about those functions.

| files | what they model |
|---|---|
| `Base`, `Wire`, `ByteIO`, `Utf8Text` | errors, LEB128, little-endian numbers, strings, and the readers and writers over streams |
| `Chunked`, `Compression` | the two stream adapters |
| `Column`, `Codec`, `Encoder`, `Decoder` | columns, `validate`, the native encoding in both directions |
| `CodecRoundTrip`, `PrefixCode`, `CodecSound`, `Decoded`, `HighBytes`, `Printed`, `SlotMap` | what is true of the codec |
| `WireFormat`, `Refusals` | the encodings in literal bytes, and what each decoder accepts and how it refuses |
| `Replicated`, `ReplicatedLaws`, `SparseOffsets`, `Sparse`, `Kinds`, `KindsSound`, `KindsExact` | the replicated and sparse layouts, and a column with its header |
| `TypeString`, `TypeTree`, `TypePrint`, `TypeRefinement`, `TypeErrors`, `Digits` | type strings, the trees they stand for, why decoding them ends, and which are refused |
| `Blocks`, `BlocksExact`, `Client` | blocks, and packets through the whole stack |
| `Calendar`, `DateText`, `WideInt`, `Decimal` | dates, times, 256-bit integers and decimals as text |
| `Escape`, `QuotedText`, `QuotedReadable`, `QuotedWriter` | quoted and nested values as text |
| `SqlSplit` | cutting SQL text into statements |

## Main results

* **Round trip, exactly when.** For every column `validate` accepts,
  decoding its encoding from the type and the row count returns the same column
  and leaves the following bytes untouched *if and only if* its counts are within
  the reader's bounds, it is canonical, and no stateful type is an element of a
  Variant or a runtime type of a Dynamic on the wire
  (`CodecRoundTrip.RoundTripIff`). The same holds with nothing but the printed
  type, where the test of a Variant is on the text of its elements
  (`Printed.RoundTripByText`). The writer makes no such distinction: what it
  writes is a prefix code for every type, refused ones included
  (`PrefixCode.EncodingsArePrefixFree`).
* **Decoding establishes the encoder's invariant** from any bytes
  (`Decoded.DecodedIsValid`). For every type and every input, what is missing is
  exactly the checks the decoder leaves out (`Decoded.DecodedIsSound`): an empty
  tuple stands for no rows, fixed strings have a size, and a dictionary column has
  one key a row, each naming an entry of the dictionary (and, where that is a
  tuple, its elements agree in length). Each of the three is shown to be needed by
  a concrete input.
* **What a kind mark does**: marked sparse and written densely, no column of any
  type is ever read back (`KindsExact.SparseNeverReadBack`): the number that ends
  an offsets stream has a byte of 128 or more that the dense data cannot spare
  (`KindsExact.SparseHigh`). Under every mark but the replicated one, a column of a
  block comes back exactly when the writer honours the mark and the data survives
  the codec (`KindsExact.EntryReadBackIff`). At types without dictionaries a block
  comes back exactly when each of its columns would and has the block's row count
  (`BlocksExact.BlockReadBackIff`).
* **The format in literal bytes.** What the writer puts out and what the reader
  insists on is stated without either: every version word, flag, width, bound and
  kind byte (`WireFormat`, `Refusals`). Any bytes are a VarUInt exactly when they
  spell one in ten bytes (`WireFormat.VarUIntReads`), a frame is accepted exactly
  when its method, sizes, checksum and body agree (`Refusals.FrameAccepted`), and
  strings are exactly the spellings of Unicode scalar values
  (`Utf8Text.Utf8Exactly`). The server's layouts are read behind their kind bytes
  as the rows they stand for (`Kinds.SparseEntryReads`,
  `Kinds.ReplicatedEntryReads`).
* **Framing is transparent exactly when** every flush is under 2^32 bytes, if it is
  to be so after every operation of a run (`Chunked.TransparentThroughout`).
* **What was decoded can be printed**: no slot on the way to a row's value is out of
  range, at any depth of any decoded column that passes the omitted checks
  (`SlotMap.DecodedInRange`).
* **Replicated expansion is row selection** through every nesting
  (`Replicated.RowSelection`), succeeds exactly when it should
  (`ReplicatedLaws.ReplicateExactly`), and obeys the two functor laws.
* **The string-driven decoder is the tree-driven one**, ends on every input
  (`Decoder.DecodeColumn`), and the tree of a printed type is the type
  (`TypeRefinement.TypeOfPrint`).
* **The whole stack loops back**: packets sent over a socket, compressed and
  chunked or not, come back block for block (`Client.Loopback`).
* **Text is exact**: dates are the Gregorian calendar, 256-bit numbers print
  their value, integers the signed number of their bits, quoted text is uniquely
  readable and stays on its line (`Escape.EscapedStaysInside`), SQL is cut only
  outside quotes and comments.

## Where the code and its documentation disagree

The model follows the code.

* A VarUInt takes ten bytes from 2^63 up; the comment at `src/proto/wire.rs:6-10`
  says nine at most (`Wire.LebOfU64`).
* A type list is not cut after a piece of one character, although
  `split_with_composite` is described as cutting at every top-level comma
  (`TypePrint.ShortHead`). On the empty string it aborts.
* `Tuple()` is said at `src/proto/column.rs:2888` to take no bytes; the decoder reads one
  byte a row (`src/proto/column.rs:2167-2178`) and the encoder writes none, so its row
  count is lost (`Decoded.EmptyTupleExactly`).
* `flush` cuts the size of a chunk to 32 bits without a check; data comes through
  exactly below 2^32 bytes (`Chunked.FrameReadsBackIff`).
* `encode_frame` cuts both sizes of a frame to 32 bits without a check; a frame
  decodes exactly when they fit (`Compression.ParseFrameAppend`).
* The writer encodes Variant and Dynamic columns whose elements the reader refuses
  as stateful (`CodecRoundTrip.BarredFails`, `Printed.StatefulRuntime`).
* A column marked sparse is still written densely and cannot be read back
  (`KindsExact.SparseNeverReadBack`); one marked replicated can, by accident
  (`KindsExact.ReplicatedByAccident`), but not if it takes a byte a row or less
  (`KindsExact.ReplicatedNeedsRoom`).
* The flag of the offsets stream is bit 62 of a 64-bit gap, so a gap that has this
  bit of its own is misread; a wider one without it is not
  (`SparseOffsets.PositionsReadBack`).
* `validate` does not look at the slots of a Variant or Dynamic column, at any depth
  (`SlotMap.ValidateMissesSlots`). A row has a value exactly when every slot on the
  way to it is in range (`SlotMap.RowIsComplete`); printing one without a value is
  an index out of range, but for a slot into a column of Nothing, whose rows have
  no printed form either way.

## Model

| member | source | states |
|---|---|---|
| Wire.LebOfU64 | src/proto/wire.rs:13-29 | every u64 is written as one to ten bytes, as ten if and only if it is 2^63 or more |
| Wire.ParseVarUIntAppend | src/proto/wire.rs:105-126 | the reader returns the written number and stops right after it, whatever follows |
| Wire.OrDisjoint | src/proto/wire.rs:112-118 | or-ing in a shifted group above all bits in use is adding it |
| Wire.ParseVarUIntBound | src/proto/wire.rs:105-126 | whatever the bytes, an accepted VarUInt fits 64 bits |
| Wire.ParseVarUIntsOfLebAll | src/proto/wire.rs:105-126 | any concatenation of VarUInts reads back as the same list |
| Wire.ParseLEAppend | src/proto/wire.rs:154-206 | fixed-width numbers are read back, and nothing after them |
| Wire.LEOfFromLE | src/proto/wire.rs:41-94 | little-endian bytes are the only spelling of the number they denote |
| Wire.ParseStringAppend | src/proto/wire.rs:128-147 | a written string is read back, or refused exactly when it is longer than 4 GiB |
| Utf8Text.Utf8Exactly | src/proto/wire.rs:145-147 | the bytes taken for a string are exactly those that spell a sequence of Unicode scalar values: no overlong form, no surrogate, nothing past U+10FFFF |
| Utf8Text.FirstChar | src/proto/wire.rs:145-147 | a character in front never changes whether the rest is accepted |
| WireFormat.ByteOfNumber | src/proto/wire.rs:41-94 | byte j of a fixed-width number is its digit of weight 256^j |
| WireFormat.VarUIntBytes | src/proto/wire.rs:13-29 | what is written are the base-128 digits of the number, lowest first, the top bit on all but the last, and no zero at the end |
| WireFormat.VarUIntReads | src/proto/wire.rs:105-126 | any bytes up to one below 128 are read as the number they spell modulo 2^64, canonical or not, when there are at most ten of them, and are an overflow otherwise |
| WireFormat.VarUIntEnds | src/proto/wire.rs:105-126 | without such a byte it is an early end, or an overflow from the eleventh byte on |
| Refusals.StringRefused | src/proto/wire.rs:128-147 | more than 2^32 bytes are refused before any is read, then missing ones, then what is not UTF-8 |
| ByteIO.ByteReader.ReadExact | src/proto/compression.rs:181-199 | any number of short reads, through frames or chunks, gives exactly the next bytes or an early end |
| ByteIO.ByteReader.ReadVarUInt | src/proto/wire.rs:105-126 | the shift-and-or loop delivers the VarUInt at the front of the stream, and aborts where the shift overflows |
| ByteIO.ByteReader.ReadString | src/proto/wire.rs:128-147 | delivers a length-prefixed string, refusing a length over the bound and bytes that are not UTF-8 |
| ByteIO.ByteWriter.WriteVarUInt | src/proto/wire.rs:13-29 | the writer loop puts out the LEB128 code of the number |
| ByteIO.ByteWriter.WriteString | src/proto/wire.rs:31-35 | puts out the length and the bytes, nothing else |
| Chunked.ChunkedStream.Read | src/proto/chunked.rs:89-110 | what is returned is a prefix of the payload still to come, at most `n` bytes, and empty or an error only at its end |
| Chunked.ChunkedStream.ReadExact | src/proto/chunked.rs:89-110 | exactly the next `n` payload bytes, across any number of chunks and terminators |
| Chunked.ChunkedStream.Write | src/proto/chunked.rs:112-119 | plain mode sends at once, chunked mode only buffers |
| Chunked.ChunkedStream.Flush | src/proto/chunked.rs:124-133 | a non-empty buffer leaves as one packet and is emptied; nothing else is sent |
| Chunked.FramingIsTransparent | src/proto/chunked.rs:112-134 | over every run of writes, flushes and a switch to chunks, what a reader gets plus what is still buffered is what was written, and the wire after the switch is whole packets without empty chunks |
| Chunked.PlayBack | src/proto/chunked.rs:64-134 | both ends played against each other, switching at the same byte, with reads of any size, transfer exactly what was flushed |
| Chunked.DeframeSplit | src/proto/chunked.rs:104-108 | after a short read, `read_remaining` is what is left of the current chunk |
| Chunked.FrameReadsBackIff | src/proto/chunked.rs:124-133 | a flush comes through if and only if it is under 2^32 bytes |
| WireFormat.ChunkBytes | src/proto/chunked.rs:124-133 | a chunk is four bytes of size, the data and four zero bytes |
| Chunked.TransparentThroughout | src/proto/chunked.rs:112-134 | a run is transparent after each of its operations if and only if every flush of it is under 2^32 bytes |
| Compression.ParseFrameAppend | src/proto/compression.rs:57-150 | a frame decodes to its data and ends at its last byte if and only if its sizes fit 32 bits, for any lossless compressor and any 16-byte checksum |
| Refusals.FrameAccepted | src/proto/compression.rs:89-150 | a frame is accepted as some data if and only if its method byte is 0x02, 0x82 or 0x90, its sizes are possible, its first 16 bytes are the checksum of all that follows, and the body unpacks to that data |
| Refusals.FrameRefused | src/proto/compression.rs:89-150 | an unknown method, an impossible size and a wrong checksum are invalid data, a short frame is an early end |
| Compression.DecodeFrame | src/proto/compression.rs:89-150 | reads one frame off the stream, with every refusal: unknown method, short size, bad checksum, wrong length |
| Compression.CompressedReader.Read | src/proto/compression.rs:181-199 | returns a prefix of the unpacked stream, touches the next frame only when the last one is used up, and fails as the frame that broke |
| Compression.AdvanceAdd | src/proto/compression.rs:181-199 | taking bytes in two steps leaves the reader where one step would |
| Compression.CompressedWriter.Flush | src/proto/compression.rs:228-236 | everything buffered leaves as one frame, an empty buffer included, and the stream below is flushed |
| Column.Validate | src/proto/column.rs:1098-1430 | the loops of `validate` accept exactly the columns with matching counts, rising offsets and keys in range at every level |
| Column.CountRows | src/proto/column.rs:1299-1347 | counts the rows of each discriminator in one pass, failing exactly on one that names no column |
| Encoder.EncodeColumn | src/proto/column.rs:1432-1769 | writes the encoding of a valid column, and not one byte of an invalid one |
| WireFormat.ScalarBytes | src/proto/column.rs:1432-1643 | a value takes an eighth as many bytes as the number in its type's name has bits |
| WireFormat.ByteOfNumbers | src/proto/column.rs:1432-1643 | byte j of value i stands at i * width + j |
| WireFormat.StringBytes | src/proto/column.rs:1475-1479 | a string column is, string by string, the length and the bytes |
| WireFormat.JsonBytes | src/proto/column.rs:1644-1653 | JSON text is the 64-bit word 1 and then strings, or nothing without rows |
| WireFormat.NothingBytes | src/proto/column.rs:1694-1702 | a column of Nothing is one character 0 a row |
| WireFormat.NullableBytes | src/proto/column.rs:1484-1487 | the null map stands in front of the values |
| WireFormat.ArrayBytes | src/proto/column.rs:1488-1493 | 64-bit offsets, then the elements |
| WireFormat.MapAndNestedBytes | src/proto/column.rs:1504-1522 | a Map is an array of its keys followed by its values, a Nested an array of tuples |
| WireFormat.TupleBytes | src/proto/column.rs:1494-1503 | the elements one after another |
| WireFormat.DictionaryWord | src/proto/column.rs:1654-1693 | a dictionary column with rows starts with the word 1 and the word code + 512 + 1024, the code being 0, 1, 2 or 3 for keys of 1, 2, 4 or 8 bytes |
| WireFormat.VariantBytes | src/proto/column.rs:1703-1723 | the word 0, one byte a row, the sub-columns; nothing without rows |
| WireFormat.DynamicBytes | src/proto/column.rs:1724-1755 | the word 3, the number of types and their names, discriminators of the least width for 255, 65535 or 2^32 - 1 types, the sub-columns |
| CodecRoundTrip.ParseOffsetsAppend | src/proto/column.rs:2191-2226 | rising offsets are read back, or refused exactly when the last one exceeds 2^32 |
| CodecRoundTrip.NullSlotFits | src/proto/column.rs:350-360 | the discriminator width always expresses the NULL slot, and no narrower width would |
| CodecRoundTrip.RoundTrip | src/proto/column.rs:1771-2299 | decoding any valid column's encoding gives its normal form and the untouched rest, or is refused: for a count out of bounds, or for a stateful runtime type on the wire |
| CodecRoundTrip.RoundTripIff | src/proto/column.rs:1432-1769 | a valid column comes back unchanged, the bytes after it untouched, if and only if its counts fit, it is canonical, no Variant has a stateful element and no Dynamic on the wire a stateful runtime type |
| CodecRoundTrip.BarredFails | src/proto/column.rs:2305-2325 | a type with a stateful Variant element anywhere decodes from no bytes and no row count |
| CodecRoundTrip.StatefulElement | src/proto/column.rs:2305-2325 | a valid, canonical Variant of a dictionary that is written and refused |
| CodecRoundTrip.CanonicalIsNormal | src/proto/column.rs:1654-1769 | exactly the canonical columns lose nothing: computed slots, and no dictionary or runtime types without rows |
| CodecRoundTrip.EmptyDecode | src/proto/column.rs:1771-2299 | a column without rows takes no bytes and is decoded bare, unless a Variant of its type is refused |
| Printed.RoundTripByText | src/proto/column.rs:1771-1775 | the same round trip, with its exact condition, when the decoder is given only the printed type and a row count |
| Printed.UnbarredText | src/proto/column.rs:2305-2325 | a Variant is refused if and only if the text of one of its elements has a stateful word |
| Printed.StatefulVariantText | src/proto/column.rs:2305-2325 | the text Variant(LowCardinality(String)) decodes from nothing, though the writer encodes a column of it |
| Printed.StatefulRuntime | src/proto/column.rs:2441-2453 | a valid, canonical Dynamic of JSON that is written and not read back |
| PrefixCode.EncodingsArePrefixFree | src/proto/column.rs:1432-1769 | encodings of one type and row count are a prefix code: the joined bytes determine what survives of the column, and where it ends |
| Decoded.DecodedIsSound | src/proto/column.rs:1771-2299 | at every type, any decoded column has values of its widths and counts in bounds, and is valid with the asked row count if and only if the three omitted checks hold; then it is canonical too |
| Decoded.DecodedIsValid | src/proto/column.rs:1771-2299 | from any bytes, a column decoded at a type free of LowCardinality, empty tuples and FixedString(0) passes `validate` and has the row count |
| Decoded.LowCardinalityExactly | src/proto/column.rs:2066-2104 | a decoded dictionary column of a plain type is valid if and only if it has one key a row and every key is in the dictionary |
| Decoded.EmptyTupleExactly | src/proto/column.rs:2167-2178 | an empty tuple keeps the row count if and only if it is zero |
| Decoded.FixedStringExactly | src/proto/column.rs:2136-2147 | a decoded FixedString(n) is valid with the row count if and only if n is positive |
| Decoded.DecodeIsStable | src/proto/column.rs:1771-2299 | decoding, encoding and decoding again changes nothing, however the first bytes were spelled |
| Decoded.ArrayOfEmptyTuple | src/proto/column.rs:2167-2225 | an input that decodes to an array `validate` refuses |
| Decoded.FixedStringZero | src/proto/column.rs:2136-2147 | FixedString(0) decodes from nothing and is never valid |
| Decoded.DanglingKey | src/proto/column.rs:2027-2104 | an input that decodes to a key past its dictionary |
| Decoder.DecodeColumn | src/proto/column.rs:1771-2299 | driven by the type string alone it delivers what the type's tree says, and ends on every string and every input |
| Decoder.ReadSlots | src/proto/column.rs:2349-2373 | one pass over the discriminators yields the slots and the sub-column sizes, refusing one that is out of range |
| Decoder.DecodeVariant | src/proto/column.rs:2305-2385 | delivers a Variant column, refusing stateful elements and the compact mode |
| Refusals.NullByte | src/proto/column.rs:2305-2385 | a row of a decoded Variant is NULL if and only if its byte on the wire is 255 |
| Refusals.VariantAccepted | src/proto/column.rs:2305-2385 | an accepted Variant starts with the word 0, and its discriminators are the bytes that follow, each 255 or the number of an element |
| Refusals.AllNullBytes | src/proto/column.rs:2305-2385 | rows that are all 255 are accepted at every list of element types, however many, as long as each decodes without rows |
| Refusals.VariantByteRefused | src/proto/column.rs:2349-2373 | the first byte that is neither 255 nor the number of an element is invalid data |
| Refusals.VariantRefused | src/proto/column.rs:2305-2340 | any first word but 0, and any stateful element, is unsupported |
| Decoder.DecodeDynamic | src/proto/column.rs:2401-2505 | delivers a Dynamic column whose types come from the wire, refusing stateful ones |
| Refusals.DynamicRefused | src/proto/column.rs:2401-2430 | any first word but 3 is unsupported |
| Refusals.DynamicStateful | src/proto/column.rs:2441-2453 | a runtime type with a stateful word is unsupported, whatever follows |
| Decoder.DecodeLowCardinality | src/proto/column.rs:2027-2104 | delivers a dictionary column, with each refusal of prefix, key type and counts |
| Refusals.DictionaryAccepted | src/proto/column.rs:2027-2104 | an accepted dictionary column starts with the word 1, has a key type 0 to 3 in its ninth byte, and decodes its dictionary with the count in bytes 16 to 24 |
| Refusals.DictionaryRefused | src/proto/column.rs:2027-2104 | any other first word is unsupported, any other key type and a count over 2^32 are invalid data |
| Refusals.OffsetsRefused | src/proto/column.rs:2191-2226 | offsets are accepted if and only if they never fall and the last one is at most 2^32 |
| Refusals.JsonRefused | src/proto/column.rs:2512-2539 | JSON is read as text if and only if its first word is 1, and no other version is known |
| Refusals.FixedRefused | src/proto/column.rs:2136-2147 | a FixedString column is refused before any byte is read if and only if its size does not fit 64 bits |
| Decoder.RuntimeSmaller | src/proto/column.rs:2441-2453 | a runtime type is below the Dynamic type that carries it, so decoding it ends |
| SlotMap.SlotInRange | src/proto/column.rs:2349-2373 | every non-NULL row's slot is within its sub-column |
| SlotMap.SlotsIncrease | src/proto/column.rs:2349-2373 | rows of one sub-column take its elements in row order, no two the same |
| SlotMap.SlotIsTaken | src/proto/column.rs:2349-2373 | every element of every sub-column is some row's value |
| SlotMap.RowsAreConserved | src/proto/column.rs:2349-2379 | sub-column sizes plus NULL rows make up the column |
| SlotMap.RowIsComplete | src/tsv.rs:100-151 | for any valid column, a row has a value with nothing missing inside it if and only if every slot looked up on the way, at every depth, is within its sub-column |
| SlotMap.VariantRows | src/tsv.rs:122-136 | a row is NULL by its discriminator alone, otherwise the element in its slot, and complete if and only if the slot and all slots below it are in range |
| SlotMap.DynamicRows | src/tsv.rs:137-151 | the same for Dynamic |
| SlotMap.CanonicalInRange | src/proto/column.rs:2349-2373 | the slots the decoder computes are within their sub-columns, wherever in the column they stand |
| SlotMap.DecodedInRange | src/proto/column.rs:1771-2505 | every row of every column decoded from any bytes, the omitted checks holding, has a complete value |
| SlotMap.ValidateMissesSlots | src/proto/column.rs:1299-1347 | a valid Variant whose slot is out of range, and one whose sub-column has such a slot |
| Replicated.MaterializeReplicated | src/proto/column.rs:576-865 | the in-place loops compute the expansion, each error and abort included |
| Replicated.FlattenLoop | src/proto/column.rs:731-743 | the flat indexes and new offsets of the chosen rows |
| Replicated.Select | src/proto/column.rs:576-865 | the expansion is valid and has one row per index |
| Replicated.RowSelection | src/proto/column.rs:576-865 | row i of the expansion is row indexes[i] of the source, through every nesting |
| Replicated.Ends | src/proto/column.rs:731-743 | new offsets rise and each one counts the elements chosen so far |
| ReplicatedLaws.ReplicateExactly | src/proto/column.rs:576-865 | on a valid column the expansion succeeds exactly for supported types, fitting sizes and in-range indexes (or none looked at), and then is the selection |
| ReplicatedLaws.SelectIdentity | src/proto/column.rs:721-750 | expanding by the identity returns the column unchanged, offsets included |
| ReplicatedLaws.SelectCompose | src/proto/column.rs:721-750 | expanding twice is expanding once by the composed indexes |
| SparseOffsets.ReadPositions | src/proto/column.rs:480-510 | delivers the positions, reading at most rows + 1 numbers whatever the stream says |
| SparseOffsets.AcceptedStream | src/proto/column.rs:480-510 | an accepted stream is exactly the marked gaps of strictly increasing positions below rows |
| SparseOffsets.GapsCover | src/proto/column.rs:482-510 | gaps and explicit rows make up the column |
| SparseOffsets.PositionsReadBack | src/proto/column.rs:480-510 | gap-encoded increasing positions come back, the rest untouched, if and only if no gap has bit 62 set |
| SparseOffsets.StreamNumbers | src/proto/column.rs:480-510 | a number below 2^62 is a gap before an explicit row, 2^62 more than one the gap at the end; a position past the rows is invalid data |
| SparseOffsets.WideGapIsMisread | src/proto/column.rs:484-490 | a gap of 2^62 rows is taken for the end and refused; one of 2^63 is read back |
| Sparse.MaterializeSparse | src/proto/column.rs:873-1018 | the scatter loops compute the dense column, each error and abort included |
| Sparse.MaterializeExactly | src/proto/column.rs:873-1018 | the expansion succeeds exactly for the supported types and sizes, and gives `rows` valid rows |
| Sparse.SparseTypes | src/proto/column.rs:873-1018 | the expansion is supported for exactly the fixed-width types but the 256-bit integers, strings, fixed strings, and Nullable of these |
| Sparse.SparseRefused | src/proto/column.rs:873-1018 | other types are unsupported, a FixedString past 64 bits is invalid data, a Nullable is refused as what it holds |
| Sparse.SparseRow | src/proto/column.rs:873-1018 | the i-th value stands at position i, and the type's default, NULL for Nullable, everywhere else |
| Kinds.ReadSparse | src/proto/column.rs:473-517 | delivers a sparse column: positions, values, scatter |
| Kinds.ReadReplicated | src/proto/column.rs:531-570 | delivers a replicated column, refusing a wrong row count or index width |
| Kinds.SparseReadBack | src/proto/column.rs:473-517 | the server's sparse layout of any column decodes to its rows among defaults, and the rest is untouched, unless a gap has the flag bit of its own |
| Kinds.ReplicatedReadBack | src/proto/column.rs:531-570 | the server's replicated layout decodes to the selected rows |
| Kinds.ReadEntry | src/proto/column.rs:381-440 | delivers a column with its header, choosing the layout by the kind byte |
| Kinds.SparseEntryReads | src/proto/column.rs:381-440 | name, type, the bytes 1 and 1, an offsets stream and the explicit values are read as a column of these values at their positions among blanks, the rest untouched |
| Kinds.ReplicatedEntryReads | src/proto/column.rs:381-440 | name, type, the bytes 1 and 4 and a replicated layout are read as a column of the selected rows, the rest untouched |
| Refusals.KindsKnown | src/proto/column.rs:405-436 | kind 0 is dense, 1 sparse, 4 replicated, and every other byte is unsupported |
| Refusals.KindBytesRead | src/proto/column.rs:390-406 | from protocol 54454 on a byte 0 or 1 says whether a kind byte follows, before that there is none |
| Refusals.ReplicatedRefused | src/proto/column.rs:531-570 | a row count that is not the one asked for, or an index width other than 1, 2, 4 and 8, is invalid data |
| Refusals.WidthIgnored | src/proto/column.rs:531-570 | without rows the index width is passed over |
| Kinds.WriteEntry | src/proto/column.rs:363-379 | writes header and dense data; invalid data is refused after the header |
| Refusals.EntryBytes | src/proto/column.rs:363-379 | a column is its name, its type, from protocol 54454 on the byte 0 or the byte 1 and the kind stack, and its data |
| KindsExact.SparseNeverReadBack | src/proto/column.rs:363-517 | dense data of any type and any length, read as sparse, never gives the column back with the rest untouched |
| KindsExact.SparseHigh | src/proto/column.rs:473-517 | a sparse column, whatever its bytes, uses up more bytes of 128 and over than its dense form has |
| KindsExact.EntryReadBackIff | src/proto/column.rs:363-440 | a column with its header comes back if and only if name and type are within 4 GiB, the kind is kept and the data survives the codec; every kind stack but the replicated one, and that one where the data is short |
| KindsExact.ReplicatedByAccident | src/proto/column.rs:531-570 | dense data that reads as replicated data and comes back unchanged |
| KindsExact.ReplicatedNeedsRoom | src/proto/column.rs:531-570 | a replicated column takes a byte a row and three more, so shorter dense data is never read as one |
| HighBytes.DecodeHigh | src/proto/column.rs:1771-2299 | at every type without dictionaries, no accepted spelling of a column has fewer bytes of 128 and over than the writer's |
| HighBytes.VarUIntSpends | src/proto/wire.rs:105-126 | no accepted spelling of a number is shorter than the writer's |
| KindsSound.SparseDecodedIsValid | src/proto/column.rs:473-517 | a sparse column decoded from any bytes is valid and has the row count |
| KindsSound.ReplicatedDecodedIsValid | src/proto/column.rs:531-570 | the same for a replicated one, unnoticed out-of-range indexes included |
| KindsSound.EntryDecodedIsValid | src/proto/column.rs:381-440 | the same for every layout behind a column header |
| TypeString.SplitWithComposite | src/proto/column.rs:2924-2951 | the depth-counting loop cuts a type list, keeping short first pieces and aborting on the empty string |
| TypeString.ParseNestedLoop | src/proto/column.rs:2684-2723 | names and types of a Nested type, in order |
| TypeString.SplitPieces | src/proto/column.rs:2924-2951 | pieces are slices of the list, no parenthesis is handed out twice |
| TypeTree.AliasBelow | src/proto/column.rs:1915-1919 | a geo alias expands to a longer string of lower rank, so expansion ends |
| TypeTree.StatelessType | src/proto/column.rs:2670-2673 | the word test on the string keeps every state prefix out of the tree |
| TypePrint.SplitOfJoin | src/proto/column.rs:2924-2951 | joining pieces with ", " and cutting again returns them, when the first has two characters |
| TypePrint.ShortHead | src/proto/column.rs:2933-2937 | after a one-character first piece there is no cut |
| TypeErrors.InnerText | src/proto/column.rs:2956-2972 | what stands between the first opening and the last closing parenthesis is the inner text, trimmed; an empty one is refused except in a Tuple or an aggregate, and a size must be a number |
| TypeErrors.NoInnerText | src/proto/column.rs:2956-2972 | a text without an opening parenthesis before a closing one is invalid data |
| TypeErrors.SplitFails | src/proto/column.rs:2924-2951 | a list is cut if and only if it is not empty and its parentheses add up; the error otherwise |
| TypeErrors.ListLengths | src/proto/column.rs:2728-2788 | a Map has exactly two parameters, an aggregate at least two, a Variant any number |
| TypeErrors.FieldRefused | src/proto/column.rs:2700-2710 | a field of a Nested is invalid data if and only if it has no space inside; its name and its type are then never empty |
| TypeErrors.UnknownName | src/proto/column.rs:1771-2160 | a type is unsupported if its name is none of the 32 the model has |
| TypeErrors.GeoTypes | src/proto/column.rs:1908-1919 | a point is a tuple of two floats, and the other geo names are arrays of it, up to three deep |
| TypeErrors.NullableDictionary | src/proto/column.rs:2027-2060 | the dictionary of a nullable type is decoded as one of the type itself |
| TypeString.StatefulWords | src/proto/column.rs:2670-2673 | a type is stateful if and only if its text contains one of five words |
| TypeString.ContainsAt | src/proto/column.rs:2670-2673 | a word counts as contained only where it stands as a slice |
| TypeString.Spaces | src/proto/column.rs:2909-2917 | the characters that count as blank: the space and the control characters 9 to 13, the vertical tab left out of the ASCII test |
| TypeString.TrimmedEnds | src/proto/column.rs:2956-2972 | trimming takes blanks off both ends and nothing else |
| TypeRefinement.TypeOfPrint | src/proto/column.rs:2684-2972 | the helpers read back exactly the printed children: the tree of a printed type is the type it denotes |
| Digits.ParseUsizeOfDec | src/proto/column.rs:3041-3057 | a printed size is parsed back, or refused exactly when it does not fit 64 bits |
| Digits.PlusSign | src/proto/column.rs:3041-3057 | one plus sign in front of a size is passed over, and there must be a digit |
| Blocks.InfoReadBack | src/proto/block.rs:107-160 | block info is read back, its delayed buckets always lost |
| Blocks.ServerInfoReadBack | src/proto/block.rs:118-160 | the info a server sends, delayed buckets included, is read in full |
| Refusals.InfoBytes | src/proto/block.rs:107-115 | the info a client sends, byte by byte: field 1 and a flag, field 2 and 32 bits, the end marker 0 |
| Refusals.InfoFields | src/proto/block.rs:118-155 | field 0 ends the info, 1 is a flag, 2 a signed 32-bit bucket, and a number above 3 is invalid data; without field 2 the bucket is -1 |
| Refusals.BucketsField | src/proto/block.rs:130-140 | field 3 is a count and as many 32-bit buckets, or an early end |
| Blocks.ReadInfo | src/proto/block.rs:118-160 | delivers block info from fields in any order |
| Blocks.WriteBlock | src/proto/block.rs:23-42 | writes a block up to the first column that is not valid, and nothing without info |
| Refusals.BlockBytes | src/proto/block.rs:23-42 | info from protocol 51903 on, the number of columns, the number of rows, the columns |
| Blocks.WriterStops | src/proto/block.rs:23-42 | the header of the first column that is not valid is the last thing written, and without the info its protocol asks for nothing is |
| Blocks.ReadBlock | src/proto/block.rs:55-85 | delivers a block with its columns |
| Blocks.BlockReadBack | src/proto/block.rs:23-85 | a block whose columns have its row count is read back, and the rest is untouched |
| BlocksExact.BlockReadBackIff | src/proto/block.rs:23-85 | at types without dictionaries, empty tuples and FixedString(0), and under every mark but the replicated one, a block comes back if and only if its info is what the version carries, every column has its row count and every column would come back on its own |
| BlocksExact.EntryDecoded | src/proto/column.rs:381-440 | a column read back from any bytes has the rows asked for and, unless it came sparse, would survive being written again |
| BlocksExact.RowsMismatch | src/proto/block.rs:23-42 | a block of two rows with a column of one: written, and not read back |
| BlocksExact.DictionaryRowsIgnored | src/proto/column.rs:2027-2104 | a dictionary column comes back at any positive row count, since it goes by its own |
| Client.Connection.WriteBlock | src/client.rs:569-580 | a compressed block leaves as one flushed frame; one that cannot be encoded leaves nothing |
| Client.Connection.ReadBlock | src/client.rs:557-565 | reads a block through an adapter of its own, with every error: the parser's, and where the frames end too early that of the frame that broke |
| Client.Connection.SendSession | src/client.rs:474-487 | packet code, table name and block for each packet, then a flush; the first block that cannot be encoded ends it, its header and what came before it on the stream |
| Client.SessionStops | src/client.rs:474-487 | nothing follows a packet whose block cannot be encoded, and under compression not a byte of that block goes out |
| Client.CodeIsCut | src/client.rs:583-584 | a packet code is a number cut to its lowest byte |
| Refusals.PacketMethod | src/client.rs:569-580 | a compressed packet has the method byte of LZ4 behind the checksum of its block |
| Client.BodyReadBack | src/client.rs:557-580 | after a block the adapter's buffer is empty and the stream stands at the next byte |
| Client.SessionReadBack | src/client.rs:557-580 | any sequence of packets is read back packet for packet |
| Client.SessionCrossesWire | src/proto/chunked.rs:89-134 | the peer's stream delivers exactly the bytes of the session, chunked or plain |
| Client.Loopback | src/client.rs:557-580 | the whole stack end to end: packets sent over a socket are received unchanged |
| Calendar.CivilIsGregorian | src/tsv.rs:561-573 | every output is a date, day 0 is 1970-01-01, and the next day has the next date |
| Calendar.CivilReaches | src/tsv.rs:561-573 | every date is reached, from its own day number |
| Calendar.DayNumberIsInjective | src/tsv.rs:561-573 | different dates have different day numbers |
| DateText.ClockRecomposes | src/tsv.rs:312-317 | the printed fields are a clock reading and give back the seconds |
| DateText.WriteDateReads | src/tsv.rs:303-310 | the text of a day number reads back as the date with that number; every day number has one but those past the calendar's range |
| DateText.DateReads | src/tsv.rs:303-310 | the text of a date gives back the date, years before 0 and after 9999 included |
| DateText.DateTimeReads | src/tsv.rs:312-343 | the text of a time at any scale gives back the ticks it was made from |
| DateText.DateForm | src/tsv.rs:303-310 | ten characters for the years 0 to 9999, month and day in two digits each at their places from the end, a minus sign exactly for negative years |
| DateText.ClockForm | src/tsv.rs:312-343 | a space after the date, colons between the fields, a point in front of the fraction |
| DateText.ClockFields | src/tsv.rs:312-343 | hour, minute and second stand in this order, two digits each |
| DateText.TicksFit | src/tsv.rs:338-343 | a time has a text if and only if its scale is at most 18 and its day is in the calendar's range |
| WideInt.DivideByTen | src/tsv.rs:427-437 | the inner loop divides the number in place by ten, within u16 and u8 |
| WideInt.U256ToDecimal | src/tsv.rs:418-444 | the text is the shortest decimal of the little-endian value, at most 78 digits |
| WideInt.SignMagnitude | src/tsv.rs:447-462 | sign and magnitude are right for all two's-complement inputs, -2^255 included |
| Decimal.WriteDecimal256 | src/tsv.rs:478-506 | the signed text of the two's-complement value |
| Decimal.WriteI256 | src/tsv.rs:467-473 | the signed value in decimal |
| Decimal.SignedDenotes | src/tsv.rs:478-506 | the text denotes value / 10^scale exactly, with no superfluous zero, and a minus sign exactly for negative values |
| Decimal.PrintersAgree | src/tsv.rs:386-506 | both decimal printers write the same text for every i128 and scale up to 38 |
| Decimal.ScaleFits | src/tsv.rs:386-400 | the narrow printer works up to scale 38, the last one whose power of ten fits 128 bits |
| Escape.WriteEscaped | src/tsv.rs:258-290 | writing in chunks is escaping byte by byte |
| Escape.QuotedReads | src/tsv.rs:258-290 | no escaped string contains its closing quote: the reader stops exactly there |
| Escape.EscapedIsInjective | src/tsv.rs:258-290 | different strings have different escapes |
| Escape.EscapedStaysInside | src/tsv.rs:258-290 | escaped text has no tab, line feed, carriage return, NUL, backspace or form feed, and every quote in it is escaped |
| Escape.EscapedPlain | src/tsv.rs:258-290 | text is left as it is if and only if it has none of these, no backslash and no quote |
| QuotedReadable.ReadRender | src/tsv.rs:585-745 | from a value's text and anything that does not extend a number the reader recovers value and rest |
| QuotedReadable.RenderIsInjective | src/tsv.rs:585-745 | two values of one type never render alike, so NULL never collides with a string |
| QuotedText.NumberReads | src/tsv.rs:585-600 | the text of an integer of w bytes denotes a number congruent to its bits modulo 256^w, from 0 up for an unsigned kind and from -256^w/2 below 256^w/2 for a signed one |
| QuotedWriter.WriteValueQuoted | src/tsv.rs:585-695 | the text written for a row is that of its logical value; it fails exactly where the row comes to a value of a type without a quoted form, one under a NULL or in an empty list not counting |
| QuotedWriter.WriteNested | src/tsv.rs:511-534 | a nested row is written as a list of records |
| QuotedWriter.QuotableRows | src/tsv.rs:585-695 | every row of a column built from quotable types has a quoted form |
| QuotedWriter.RowsOfType | src/tsv.rs:585-695 | rows of a well-typed column are values of its type |
| QuotedWriter.RowsReadApart | src/tsv.rs:585-745 | rows of a column that print alike are equal |
| SqlSplit.SplitStatements | src/bin/ch-tsv.rs:502-534 | the index loop and its scanners compute the statements |
| SqlSplit.TokenEnd | src/bin/ch-tsv.rs:508-526 | every token has at least one character and ends within the text |
| SqlSplit.StatementsAreReference | src/bin/ch-tsv.rs:502-592 | the cuts are exactly the semicolons a one-state character automaton finds outside quotes and comments |
| SqlSplit.SplitConserves | src/bin/ch-tsv.rs:502-534 | rejoining the pieces with semicolons gives the text back but for a blank tail |
| SqlSplit.SplitIsLocal | src/bin/ch-tsv.rs:502-534 | splitting a piece again returns just that piece, or nothing if it is blank |
| SqlSplit.PlainIsCut | src/bin/ch-tsv.rs:502-531 | a semicolon after text without quotes, dashes and slashes ends a statement, and what follows is split on its own |
| SqlSplit.QuotedIsWhole | src/bin/ch-tsv.rs:533-561 | a text in single or double quotes whose quotes are all escaped by backslashes is never cut |
| SqlSplit.DoubledIsWhole | src/bin/ch-tsv.rs:533-549 | nor is one with a single quote written twice |
| SqlSplit.EscapedIsWhole | src/tsv.rs:258-290 | the quoted strings the client writes are never cut by its own splitter, whatever they hold |
| SqlSplit.BacktickIsWhole | src/bin/ch-tsv.rs:563-573 | nor is a name in backticks, where a backslash means nothing |
| SqlSplit.LineIsWhole | src/bin/ch-tsv.rs:575-581 | nor a comment from two dashes to the end of its line |
| SqlSplit.BlockIsWhole | src/bin/ch-tsv.rs:583-592 | nor one from slash-star to the first star-slash |

## Left out

- JSON objects (serialization version 3): decode-only and unmodelled; the decoder of the model answers Unsupported.
- Leaf variants that share a layout with a modelled one (Bool, Date, DateTime, Time, Interval, Enum, UUID, IPv4, IPv6, BFloat16, Float32, Decimal columns): one leaf kind per width stands for them; label maps and scales are not in the tree.
- UUID byte order on the wire and the text of UUIDs and IP addresses.
- The text of floating-point numbers: a function given from outside, and no unique readability is claimed for it.
- Type strings and SQL outside ASCII: character positions are byte positions, and only ASCII whitespace is trimmed.
- Short writes of the socket: a write takes everything it is given.
- Allocation: a count within the sanity bounds never runs out of memory.
- LZ4, Zstd and CityHash128: parameters; that decompression undoes compression and that a checksum has 16 bytes is a precondition of the results that need it.
- The choice of columns sent as sparse or replicated: the server makes it, the client never writes these layouts.
- Packets other than those that carry a block, and the response loops around them.
- Negotiation of chunked mode and of the protocol version.
- Unquoted tab-separated rows, and the JSON rendering in them.
- Wrapping arithmetic of builds without overflow checks: an overflow is an abort here.
- Refusals.JsonRefused: version 3, the object form, counts as unknown here; the original decodes it.
- Decoder.DecodeColumn: the names of the leaf variants above (Date, Enum, Decimal, UUID and so on) and JSON of serialization version 3 are answered Unsupported, where the original decodes them.
- Blocks.BlockReadBack: one direction; the other is `BlocksExact.BlockReadBackIff`, which says nothing of columns with dictionaries, empty tuples or FixedString(0), or marked replicated.
- KindsExact.EntryReadBackIff: whether a column marked replicated, with more than a byte a row, comes back depends on all of its bytes; that some do is shown, which ones is not stated.
- Client.Connection.ReceivePacket: every code is taken for one that carries a block; the other packets are not told apart.
- Client.Loopback: one flush must stay under 2^32 bytes and one frame must fit its 32-bit sizes, which the code does not check.
