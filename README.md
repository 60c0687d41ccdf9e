# ctbtool core in Dafny

ctbtool reads CTB plot-style files. A CTB file is a 60-byte binary header,
then a zlib-compressed payload holding a settings text. The core has three
stages, run one after the other:

1. **The container decoder** (`CtbFile`).
   - It unpacks the header laid out as `48sIHHHH`: metadata, checksum, an unknown u16, marker m1, the compressed size and marker m2, all little-endian.
   - It checks m1 == 0x0001 and m2 == 0x0000.
   - It splits the metadata on its first and last comma into file version, format version and compression descriptor.
   - It takes the codec name from the descriptor's byte 10 on, when the descriptor starts with `compress`.
   - It checks the payload length, then the payload's Adler-32 (section 2.2 of RFC 1950), then decompresses it with the `pmzlibcodec` codec.
2. **The settings grammar** (`parse`).
   - `parse` drops one trailing NUL, expands tabs as the parser library does, and reads the whole text.
   - The text is a sequence of items `key = value` and blocks `key { ... }`. A block body holds only items or only blocks.
   - A value is `TRUE`/`FALSE`, a real (preferred by longest match, with the rest of its line dropped), an integer, or a quote followed by the rest of the line.
   - The result is a tree of nested lists.
3. **The tree normaliser** (`to_dict`). It folds the nested lists into dicts, with all of the function's quirks:
   - pairwise iteration of a length-2 object;
   - an early `dict(item)` return;
   - the key carried over between iterations;
   - the last write wins.

Modules:

- `Wrappers` holds `Option`, `Result` and bytes.
- `Adler32` holds the checksum.
- `PyObj` holds Python objects and an insertion-ordered dict.
- `Container` models ctbfile.py, with `CtbFile` as a class whose `Load` assigns `data`.
- `Grammar` is a recursive-descent model of the grammar objects.
- `Normaliser` holds `to_dict`: a specification function plus an imperative `ToDict` method proved equal to it.
- `Render` writes a tree back to text and proves that the grammar reads it back.
- `Settings` holds the whole `parse` pipeline.

`to_dict` regroups only length-2 objects into pairs. A flat four-element
list such as `[k1, v1, k2, v2]` fails on its first scalar with "Unhandled
value" (`Normaliser.FlatFourNotRegrouped`).

## Model

| member | source | states |
|---|---|---|
| Adler32.Checksum | ctbparser/ctbfile.py:64 | The checksum fits in 32 bits: its low half is the running sum A and its high half the sum of sums B, both mod 65521 |
| Adler32.StateClosedForm | ctbparser/ctbfile.py:64 | The byte-by-byte state equals the closed form of RFC 1950: A = 1 + Σ bytes, B = Σ of the successive A values, both mod 65521 |
| Adler32.ChecksumDetectsByteChange | ctbparser/ctbfile.py:64-68 | Changing any single byte of the payload changes its Adler-32 |
| PyObj.Keys | ctbparser/parser.py:113 | The dict's keys in insertion order, one per entry |
| PyObj.Lookup | ctbparser/parser.py:138-141 | A key has a value exactly when it is among the dict's keys |
| PyObj.Store | ctbparser/parser.py:138-141 | `out[key] = v` keeps the key order and appends only a new key |
| PyObj.StoreLookup | ctbparser/parser.py:138-141 | After `out[k] = v`, k maps to v and every other key is unchanged |
| PyObj.StoreUnique | ctbparser/parser.py:138-141 | Storing never creates a duplicate key |
| Container.U16 | ctbparser/ctbfile.py:22 | A little-endian u16 field is below 2^16 |
| Container.U32 | ctbparser/ctbfile.py:22 | A little-endian u32 field is below 2^32 |
| Container.Le16 | ctbparser/ctbfile.py:22 | Writing a u16 gives two bytes that read back as the value |
| Container.Le32 | ctbparser/ctbfile.py:22 | Writing a u32 gives four bytes that read back as the value |
| Container.Pack | ctbparser/ctbfile.py:12 | A header packs into exactly 60 bytes |
| Container.Unpack | ctbparser/ctbfile.py:21-23 | Unpacking succeeds exactly on 60 bytes, gives in-range fields that pack back to the same bytes, and otherwise fails with TruncatedHeader |
| Container.UnpackPack | ctbparser/ctbfile.py:21-23 | Unpacking a packed header gives the header back |
| Container.IndexOf | ctbparser/ctbfile.py:28 | `index`: the position of the first occurrence, or none when the byte is absent |
| Container.RIndexOf | ctbparser/ctbfile.py:29-30 | `rindex`: the position of the last occurrence, or none when the byte is absent |
| Container.SplitMetadata | ctbparser/ctbfile.py:28-30 | Fails exactly when there is no comma. Otherwise the metadata is the file version, a comma, the format version, a comma and the descriptor, with no comma in the outer two; or, with one comma, the format version is empty |
| Container.SplitJoin | ctbparser/ctbfile.py:28-30 | Joining three parts with commas (no comma in the outer two) splits back into the same three parts |
| Container.SplitJoinOneComma | ctbparser/ctbfile.py:29 | With a single comma the format version is empty |
| Container.FirstComma | ctbparser/ctbfile.py:28 | The first comma is found after a comma-free prefix |
| Container.LastComma | ctbparser/ctbfile.py:30 | The last comma is found before a comma-free suffix |
| Container.CompressionType | ctbparser/ctbfile.py:31-34 | A codec name exists exactly when the descriptor starts with `compress`; it is the descriptor from byte 10 on, and empty when the descriptor is shorter |
| Container.CompressionTypeOfName | ctbparser/ctbfile.py:31-34 | `compress`, two bytes, then a name gives that name |
| Container.Deflate | ctbparser/ctbfile.py:72-77 | Succeeds exactly for codec `pmzlibcodec` when decompression succeeds, and gives the decompressed bytes; any other codec fails with UnsupportedCompression |
| Container.Construct | ctbparser/ctbfile.py:54-70 | Fails with PayloadSizeMismatch on a length mismatch, otherwise with ChecksumMismatch on a checksum mismatch. It succeeds exactly when both hold and decompression succeeds, with the header-derived fields and the decompressed data |
| Container.Decode | ctbparser/ctbfile.py:20-43 | Fails with TruncatedHeader below 60 bytes. On success the markers are 1 and 0, the payload length and Adler-32 match the header, the codec is `pmzlibcodec` and the data is the inflated payload |
| Container.DecodeSteps | ctbparser/ctbfile.py:20-43 | Decoding is: the marker check, then the metadata split, then construction from the header fields and the rest of the input |
| Container.CtbFile.constructor | ctbparser/ctbfile.py:54-56 | Assigns file version, format version and compression type |
| Container.CtbFile.Load | ctbparser/ctbfile.py:58-70 | Assigns `data` exactly when construction succeeds, to the decompressed payload. On failure it reports the same error and leaves `data` unchanged |
| Container.ParseContainer | ctbparser/ctbfile.py:20-43 | Fails exactly when Decode fails, with its error. Otherwise it returns a CtbFile whose fields are Decode's result |
| Container.UnknownIgnored | ctbparser/ctbfile.py:23-26 | Bytes 52-53 (the unknown field) never change the outcome |
| Container.CorruptPayloadRejected | ctbparser/ctbfile.py:64-68 | Altering any payload byte of a valid file makes decoding fail with ChecksumMismatch |
| Container.Encode | ctbparser/ctbfile.py:12 | A writer for the layout: 60 header bytes followed by the payload |
| Container.DecodeEncode | ctbparser/ctbfile.py:20-77 | Decoding a written file gives back its versions, its codec and the inflated payload, or the codec or decompression error |
| Grammar.Span | ctbparser/parser.py:51 | The longest run of matching characters stops at the first one that does not match |
| Grammar.SpanAll | ctbparser/parser.py:51 | Every character in the run matches |
| Grammar.SkipWs | ctbparser/parser.py:37-53 | Skipping whitespace moves forward within the text |
| Grammar.Literal | ctbparser/parser.py:37-44 | A matched literal consumes at least one character |
| Grammar.LineEnd | ctbparser/parser.py:46 | A line end stays within the text |
| Grammar.RestOfLine | ctbparser/parser.py:47 | rest_of_line stops at the first line feed or at the end, and contains no line feed |
| Grammar.Key | ctbparser/parser.py:51 | A key is non-empty and made of letters, digits and `_` |
| Grammar.RealEnd | ctbparser/parser.py:49 | A real match is non-empty |
| Grammar.IntegerEnd | ctbparser/parser.py:48 | An integer match is non-empty |
| Grammar.Number | ctbparser/parser.py:48-50 | A number is a real or an integer and consumes input |
| Grammar.QuotedString | ctbparser/parser.py:47 | A string value is a Str and consumes input |
| Grammar.ParseValue | ctbparser/parser.py:52 | A value is a scalar |
| Grammar.ParseItem | ctbparser/parser.py:53 | An item holds a key and a scalar |
| Grammar.ParseItems | ctbparser/parser.py:59 | ZeroOrMore(Item) yields only items |
| Grammar.MoreItems | ctbparser/parser.py:59 | The items after the first one are items |
| Grammar.ParseBlock | ctbparser/parser.py:55-62 | A block is well shaped: its body holds only items or only blocks, all the way down |
| Grammar.BlockBody | ctbparser/parser.py:59-62 | The body of a block under the key read before it is well shaped |
| Grammar.ParseBlocks | ctbparser/parser.py:59 | ZeroOrMore(NestedBlock) yields only well-shaped blocks |
| Grammar.MoreBlocks | ctbparser/parser.py:59 | The blocks after the first one are well-shaped blocks |
| Grammar.ParseEntry | ctbparser/parser.py:64 | Item \| Block gives a well-shaped node |
| Grammar.ParseEntries | ctbparser/parser.py:64 | The entries of the document are well shaped |
| Grammar.MoreEntries | ctbparser/parser.py:64 | The entries after the first one are well shaped |
| Grammar.ParseDocument | ctbparser/parser.py:85 | A parse that reads the whole text gives well-shaped nodes |
| Grammar.StripNul | ctbparser/parser.py:82-83 | Exactly one trailing NUL is removed, and nothing else changes |
| Grammar.AsLists | ctbparser/parser.py:85 | as_list gives one list per node |
| Grammar.IntegerValue | ctbparser/parser.py:48 | `int()` of a signed integer lexeme: non-positive after `-`, non-negative otherwise; its exact value is stated by Render.IntToStringValue |
| Render.IntToStringValue | ctbparser/parser.py:48 | The integer pattern reads a written integer back as its value |
| Render.RealOutrunsInteger | ctbparser/parser.py:48-50 | Where a real matches, an integer match is strictly shorter or absent |
| Render.NumberPrefersReal | ctbparser/parser.py:49-50 | Float ^ Integer picks the real wherever one matches, and continues at the end of its line |
| Render.NumberOfQuote | ctbparser/parser.py:50-52 | A quote is not a number |
| Render.NotBoolean | ctbparser/parser.py:38-39 | Text not starting with T or F is neither TRUE nor FALSE |
| Render.BoolRendered | ctbparser/parser.py:67-74 | `TRUE` and `FALSE` read as the booleans true and false |
| Render.IntRendered | ctbparser/parser.py:48 | A written integer reads back as itself |
| Render.RealRendered | ctbparser/parser.py:49 | A written real lexeme reads back as itself |
| Render.StrRendered | ctbparser/parser.py:47 | A quote and a line with no line feed read as that line |
| Render.ValueRendered | ctbparser/parser.py:52 | Every written value reads back as itself |
| Render.RealTrailerValue | ctbparser/parser.py:49 | A real followed by text not starting with a digit reads as the real alone, and the text up to the line end is consumed |
| Render.ItemRendered | ctbparser/parser.py:53 | A written item reads back as itself |
| Render.BlockRendered | ctbparser/parser.py:55-62 | A written block reads back as itself |
| Render.BodyRendered | ctbparser/parser.py:59 | A body of items only or blocks only reads back, whichever alternative is longer |
| Render.NoBraceNoBlock | ctbparser/parser.py:55-57 | A key not followed by `{` is not a block |
| Render.BlockFailsOnItem | ctbparser/parser.py:64 | An item line is not a block |
| Render.ItemFailsOnBlock | ctbparser/parser.py:64 | A block's opening line is not an item |
| Render.StopFails | ctbparser/parser.py:64 | Nothing starts at the end of the text or at a `}` |
| Render.ItemsNone | ctbparser/parser.py:59 | ZeroOrMore(Item) with no match yields nothing |
| Render.BlocksNone | ctbparser/parser.py:59 | ZeroOrMore(NestedBlock) with no match yields nothing |
| Render.EntriesNone | ctbparser/parser.py:64 | (Item \| Block)[...] with no match yields nothing |
| Render.EntryRendered | ctbparser/parser.py:64 | A written item or block reads back as itself |
| Render.DocumentRoundTrip | ctbparser/parser.py:37-64 | Every well-shaped tree of writable keys and values, written out, is read back as the same tree |
| Render.TrailingBraceRejected | ctbparser/parser.py:85 | A stray `}` after a written document makes the parse fail: the whole text must be read |
| Render.RealTrailerDocument | ctbparser/parser.py:49-53 | `key = <real><text>` is one item holding the real |
| Render.OneItemDocument | ctbparser/parser.py:64 | A text that is a single item is a one-node document |
| Normaliser.PairShapes | ctbparser/parser.py:90-102 | `_is_list_pair` holds exactly of a list of two elements; `_is_list_of_list_pairs` holds exactly of a list all of whose elements are such pairs, the empty list included; neither holds of a scalar |
| Normaliser.IteratedItems | ctbparser/parser.py:126-130 | The loop runs over the object itself when it has two elements (the single tuple pairwise yields), and over its elements otherwise |
| Normaliser.Pairwise | ctbparser/parser.py:105-109 | n elements give n-1 overlapping adjacent pairs (none for an empty input) |
| Normaliser.PairItems | ctbparser/parser.py:128 | The pairs as two-element items |
| Normaliser.ItemsOfPair | ctbparser/parser.py:126-128 | A length-2 object is iterated as the single item (obj[0], obj[1]) |
| Normaliser.DictInto | ctbparser/parser.py:133 | `dict(item)` succeeds exactly when every key is hashable, fails otherwise with Unhashable, and keeps keys unique, at every nested level too |
| Normaliser.DictIntoLastWins | ctbparser/parser.py:133 | After `dict(item)` each key maps to the value of its last pair |
| Normaliser.StoreProper | ctbparser/parser.py:138-141 | `out[key] = v` with a value whose dicts have unique keys keeps unique keys at every level of `out` |
| Normaliser.ToDictSpec | ctbparser/parser.py:112-148 | `to_dict`: a scalar comes back unchanged, a successful result is a bare value exactly when the input is a scalar, and every dict at every level of the result has unique keys |
| Normaliser.Loop | ctbparser/parser.py:130-148 | The for loop from the i-th item, given `out` and the carried `key`: when it succeeds it ends in a dict, and if `out` and the dicts nested in it have unique keys, so does every level of the result |
| Normaliser.LoopListOfPairsItem | ctbparser/parser.py:131-133 | The first item that is a list of pairs ends the loop with `dict(item)`: the entries so far are discarded and the values are not normalised |
| Normaliser.LoopPairItem | ctbparser/parser.py:134-141 | A pair (k, v) stores `to_dict(v)` under k when v is a pair or a list of pairs, v itself otherwise, and k becomes the current key |
| Normaliser.LoopOtherListItem | ctbparser/parser.py:142-144 | Any other list is normalised and stored under the key last seen; with no key yet it fails with UnboundKey |
| Normaliser.LoopScalarItem | ctbparser/parser.py:145-146 | A scalar item fails with "Unhandled value" |
| Normaliser.FlatPairAsNested | ctbparser/parser.py:126-128 | `[k, v]` normalises like `[[k, v]]` |
| Normaliser.FlatFourNotRegrouped | ctbparser/parser.py:126-146 | `[k1, v1, k2, v2]` is not regrouped: it fails on k1 |
| Normaliser.FlatItemsNormalise | ctbparser/parser.py:130-141 | A list of scalar-valued pairs normalises to `dict` of those pairs |
| Normaliser.LoopFlat | ctbparser/parser.py:130-141 | Over scalar-valued pairs the loop builds the same dict as `dict(...)`, whatever the current key |
| Normaliser.NestedBlocksExample | ctbparser/parser.py:134-138 | outer { inner { a = 1 } } normalises to {outer: {inner: {a: 1}}} |
| Normaliser.TwoNestedBlocksLeftRaw | ctbparser/parser.py:131-133 | A block with exactly two sub-blocks is returned as `dict(body)`, with the sub-bodies left as raw lists |
| Normaliser.NoKeyYetExample | ctbparser/parser.py:142-144 | A non-pair list before any key fails with UnboundKey |
| Normaliser.KeyCarriedOverExample | ctbparser/parser.py:142-144 | A non-pair list after a pair overwrites that pair's key |
| Normaliser.ToDict | ctbparser/parser.py:112-148 | The imperative loop with its mutable `out` and carried `key` computes the specification |
| Settings.ExpandTabs | ctbparser/parser.py:85 | The text handed to the grammar has no tabs, and text without tabs is unchanged |
| Settings.ExpandedNoTabs | ctbparser/parser.py:85 | No tab survives expansion |
| Settings.ExpandNoTabs | ctbparser/parser.py:85 | Expansion leaves text without tabs alone |
| Settings.PadToStop | ctbparser/parser.py:85 | A tab takes 1 to 8 columns and ends on a multiple of 8 |
| Settings.TabStop | ctbparser/parser.py:85 | A tab after plain text on a line becomes the spaces up to the next tab stop, counted from the line start |
| Settings.RawTree | ctbparser/parser.py:85 | The tree read from the text is a list |
| Settings.Parse | ctbparser/parser.py:80-87 | Success is a dict with unique keys at every level. A syntax error occurs exactly when the grammar rejects the NUL-stripped, tab-expanded text |
| Settings.ParseExpanded | ctbparser/parser.py:80-87 | Text that expands to a written document parses to `to_dict` of that document's list tree |
| Settings.RenderedEnd | ctbparser/parser.py:82-83 | A written document ends with a line feed, so there is no NUL to strip |
| Settings.ParseRendered | ctbparser/parser.py:80-87 | A written tab-free document, with or without a trailing NUL, parses to `to_dict` of its list tree |
| Settings.NulStripped | ctbparser/parser.py:82-83 | An appended NUL is removed again |
| Settings.TrailingNulIgnored | ctbparser/parser.py:82-83 | A single trailing NUL does not change the result |
| Settings.TrailingBraceSyntaxError | ctbparser/parser.py:85 | Trailing text after the last line is a syntax error |
| Settings.ItemsDict | ctbparser/parser.py:85-87 | A document of items parses to `dict` of its [key, value] lists |
| Settings.ItemsLastWins | ctbparser/parser.py:80-87 | A document of items parses to a dict with unique keys, where each key holds the value of its last item and keys no item sets are absent |
| Settings.OneItemDict | ctbparser/parser.py:133 | [[k, v]] normalises to {k: v} |
| Settings.OneItemParse | ctbparser/parser.py:80-87 | A one-item document parses to {key: value} |
| Settings.BooleanItem | ctbparser/parser.py:38-39 | `key = TRUE` / `key = FALSE` parse to {key: True} / {key: False} |
| Settings.UnterminatedString | ctbparser/parser.py:47 | `key = "text` parses to {key: "text"}: no closing quote, and a quote inside stays |
| Settings.TabInString | ctbparser/parser.py:85 | A tab inside a string value turns into spaces up to the next tab stop of its line before the text is read |
| Settings.ParseRealWithTrailer | ctbparser/parser.py:49 | `key = <real><text>` parses to {key: real}: the rest of the line is dropped |

## Left out

- cli.py: option handling, file opening and JSON output are I/O.
- `CtbFile.from_file` and the stream reads: the input is a byte sequence.
  - The payload is everything after the header.
  - `struct` is taken as little-endian with no padding, which the 60-byte assertion at ctbfile.py:83 supports.
- zlib decompression: an `Inflater` parameter (a function from bytes to an optional result) stands in for it.
- The exceptions are not modelled one by one:
  - the assertion errors on the markers are UnexpectedMarker;
  - a missing comma is MissingComma;
  - the call of `NotImplemented` or `None` for an unknown codec is UnsupportedCompression;
  - a zlib error is DecompressionFailed.
- UTF-8 decoding of the settings bytes: the grammar reads a `string`.
- Digits are ASCII only. Python's `\d` in the integer and real patterns, and `int()`, also accept other Unicode decimal digits (such as `٣`), which the model rejects as a syntax error.
- Floating point: a real is kept as its lexeme and never converted.
- pyparsing's error messages and positions, `validate()` and warnings: a syntax error is the single value SyntaxError.
- Logging and `__repr__`.
- Python's equality of `True`, `1` and `1.0` as dict keys: keys are compared structurally.
- Tuples are modelled as two-element lists. The tuple `pairwise` yields is never used as a key, so the difference cannot be observed.
- TypeError for an unhashable key and UnboundLocalError for a missing `key` are Unhashable and UnboundKey.
- Settings.ParseRendered: stated only for texts without tabs. Tab expansion inside string values is covered by Settings.TabInString, for one tab on one item line.
- Settings.ItemsLastWins: last-wins is stated for documents of items only. Documents with blocks are covered by Settings.ParseRendered, which gives the result as `to_dict` of the tree. Unique keys at every level hold for every document (Settings.Parse).
