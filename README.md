# PyDX blob decoders in Dafny

PyDX reads the result database of a chromatography / mass-spectrometry
workflow. Many columns of that database hold binary blobs in small
undocumented formats, and `pydx/parsers.py` decodes them. This project
models those fixed-layout decoders as Dafny functions over byte sequences and
proves their layout, their error conditions and their round trips. It also
models two small parts of `pydx/db.py`: the decode-once `LazyBlob` wrapper
and the WHERE clause on feature ids.

- `wrappers.dfy`, module `Wrappers`: `Result`. A Python exception is a
  `Failure` value.
- `bytes.dfy`, module `Bytes`: bytes and little-endian integers.
  - `LeUnsigned` stands for `int.from_bytes(..., "little")`.
  - `LeSigned32` is the `signed=True` form.
  - `LeBits64` is the 64-bit pattern of one `<d` field of `struct.unpack`.
  - `ToUint16` and `ToUint8` are NumPy's narrowing conversions.
- `parsers.dfy`, module `Parsers`: the decoders and the two code tables.
  - `DecodePeakRatings` and `DecodePeakAreas` split stride-9 value/flag records.
  - `DecodeGapFillStatus` and `DecodeGapStatus` drop every fifth byte.
  - `DecodeRetentionTimes` reads a length-prefixed array.
  - `GapFillStatusCodes` and `GapStatusCodes` are the code tables.
  - All byte filters of the form `bytes(b for i, b in enumerate(blb) if ...)`
    are one function, `Kept`, taking an index rule. There are three rules
    from the code, plus the complement of the gap rule, which picks out the
    padding bytes the gap decoders drop.
  - One lemma, `KeptPrefixLayout`, gives the length of each filter and where
    in the blob each kept byte comes from.
- `db.dfy`, module `Db`:
  - the class `LazyBlob`, with its fields `slot` (Python's `_data`) and
    `decoded`, and the constant `decoder`;
  - `FeatureWhereClause`, shared by the three query builders.

Each decoder's result is stated in terms of the blob. There are three kinds
of statement:
- which lengths fail, and with which exception;
- how many outputs there are, and which bytes each output is read from;
- an encoder that the decoder inverts, in both directions where both hold.

An 8-byte double is kept as its 64-bit little-endian bit pattern. No
floating-point arithmetic is modelled.

Facts of the code that the model reproduces:
- **Exceptions.** A stride-9 blob whose length is not a multiple of 9
  fails the `assert`, raising `AssertionError`. So does a retention-time blob
  whose length is not 4 mod 8. The gap decoders raise `ValueError`. A
  retention-time count that does not match the remaining bytes makes
  `struct.unpack` raise `struct.error`.
- **Gap output length.** A gap blob may end with a 4-byte group that has no
  padding byte, so the output length is ceil(len/5).
- **Narrowing.** The fill status is narrowed to `uint16` and the gap status
  to `uint8`. Every fill code (the largest is 2048) fits in 16 bits.

## Model

| member | source | states |
|---|---|---|
| `Bytes.LeUnsigned` | pydx/parsers.py:115 | the little-endian unsigned value of n bytes is below 256^n |
| `Bytes.LeUnsignedOfLeBytes` | pydx/parsers.py:115 | reading back the n little-endian bytes of a value below 256^n gives that value |
| `Bytes.LeBytesOfLeUnsigned` | pydx/parsers.py:39 | writing back the value read from a byte group gives the group itself, so an 8-byte field keeps its bytes exactly |
| `Bytes.LeBytesInjective` | pydx/parsers.py:39 | two values below 256^n with the same n bytes are equal |
| `Bytes.LeBits64` | pydx/parsers.py:39 | the value of one `<d` field is a 64-bit pattern whose 8 little-endian bytes are the field's bytes |
| `Bytes.LeSigned32` | pydx/parsers.py:96 | `int.from_bytes(..., signed=True)` of 4 bytes is a 32-bit signed integer congruent mod 2^32 to the unsigned reading |
| `Bytes.LeSigned32OfLeBytes32` | pydx/parsers.py:96 | every 32-bit signed integer is read back from its 4 two's-complement bytes |
| `Bytes.LeBytes32OfLeSigned32` | pydx/parsers.py:96 | every 4 bytes are the two's-complement bytes of their signed reading |
| `Bytes.ToUint16` | pydx/parsers.py:96 | the `uint16` conversion keeps the low 16 bits: the result is in [0, 2^16) and congruent to the input mod 2^16 |
| `Bytes.ToUint8` | pydx/parsers.py:111 | the `uint8` conversion keeps the low 8 bits: the result is in [0, 2^8) and congruent to the input mod 2^8 |
| `Bytes.ToUint8OfToUint16` | pydx/parsers.py:96-111 | the 8-bit narrowing is the low byte of the 16-bit narrowing |
| `Parsers.Kept` | pydx/parsers.py:38-40 | the `enumerate` byte filter keeps KeptCount(rule, len) bytes, kept byte j being blb[SourceIndex(rule, j)]; the same filter serves lines 85-87, 93 and 108, and `KeptPrefixLayout` proves it |
| `Parsers.KeptPrefixLayout` | pydx/parsers.py:38-40 | for each index rule: how many of the first m bytes are kept, and that the j-th kept byte is the blob byte at `SourceIndex(rule, j)` (j + j/8 for values, 9j + 8 for flags, j + j/4 for gap bytes) |
| `Parsers.DecodeValueFlagRecords` | pydx/parsers.py:35-42 | the body shared by both stride-9 decoders: fails with the assertion's message exactly on lengths that are not multiples of 9, else gives len/9 values and len/9 flags; where each comes from is `ValueFlagRecordsLayout`, the round trips are `ValueFlagRecordsRoundTrip` and `ValueFlagRecordsOfEncode` |
| `Parsers.DecodePeakRatings` | pydx/parsers.py:35-42 | decode_peak_ratings fails exactly on lengths that are not multiples of 9, else gives len/9 aligned ratings and flags (layout and round trips in the `ValueFlagRecords` lemmas) |
| `Parsers.DecodePeakAreas` | pydx/parsers.py:82-89 | decode_peak_areas, with the same contract as decode_peak_ratings (layout and round trips in the `ValueFlagRecords` lemmas) |
| `Parsers.GapCodes` | pydx/parsers.py:93-96 | the signed integers both gap decoders compute: failure exactly when len % 5 is neither 0 nor 4, else ceil(len/5) codes; code k's bytes are in `GapCodesLayout`, the round trips in `GapCodesOfEncode` and `GapCodesReencode` |
| `Parsers.DecodeGapFillStatus` | pydx/parsers.py:91-96 | decode_gap_fill_status fails exactly when len % 5 is neither 0 nor 4, else gives ceil(len/5) outputs; each output is in `GapFillStatusLayout` |
| `Parsers.DecodeGapStatus` | pydx/parsers.py:107-111 | decode_gap_status, with the same failure condition and length; each output is in `GapStatusLayout` |
| `Parsers.DecodeRetentionTimes` | pydx/parsers.py:113-116 | decode_retention_times succeeds exactly when len % 8 == 4 and the prefix equals (len - 4)/8, and then gives that many values; the errors are in `RetentionTimesOutcome`, the values in `RetentionTimesLayout`, the round trips in `RetentionTimesRoundTrip` and `RetentionTimesReencode` |
| `Parsers.UnpackDoubles` | pydx/parsers.py:39 | `struct.unpack` of `count` doubles succeeds exactly when the buffer has 8*count bytes, and then value k holds the bytes b[8k .. 8k+8]; otherwise it fails with `struct.error` for 8*count bytes |
| `Parsers.RecordValueGroup` | pydx/parsers.py:38-39 | the value bytes of a stride-9 blob number 8 per record, and value group k is blb[9k .. 9k+8] |
| `Parsers.ValueFlagRecordsFailure` | pydx/parsers.py:35-36 | stride-9 decoding fails exactly when the length is not a multiple of 9, and then with the assertion's message |
| `Parsers.ValueFlagRecordsLayout` | pydx/parsers.py:38-42 | a stride-9 blob decodes to len/9 values and len/9 flags; value k is the little-endian reading of blb[9k .. 9k+8] and flag k is blb[9k+8] |
| `Parsers.ValueFlagRecordsRoundTrip` | pydx/parsers.py:38-41 | writing each decoded value's 8 bytes and then its flag reproduces the blob |
| `Parsers.ValueFlagRecordsOfEncode` | pydx/parsers.py:38-42 | any aligned values and flags, written as records, decode back to themselves |
| `Parsers.PeakAreasAreDecodedAsPeakRatings` | pydx/parsers.py:82-89 | decode_peak_areas is the same function as decode_peak_ratings, failing exactly on lengths that are not multiples of 9. The equality holds by construction: the two source bodies are identical, so both decoders are defined by `DecodeValueFlagRecords` |
| `Parsers.GapKeptLayout` | pydx/parsers.py:92-93 | dropping every fifth byte keeps len - len/5 bytes, and kept byte j is blb[j + j/4] |
| `Parsers.GapGroup` | pydx/parsers.py:96 | kept group k, kept[4k .. 4k+4], is blb[5k .. 5k+4] |
| `Parsers.GapCodesFailure` | pydx/parsers.py:94-95 | the gap decoders raise `ValueError` exactly when len % 5 is neither 0 nor 4 |
| `Parsers.GapCodesLayout` | pydx/parsers.py:93-96 | on success there are ceil(len/5) signed codes, and code k is the signed little-endian reading of blb[5k .. 5k+4] |
| `Parsers.GapFillStatusLayout` | pydx/parsers.py:91-96 | decode_gap_fill_status: its error condition, ceil(len/5) outputs, and output k is the uint16 narrowing of the signed reading of blb[5k .. 5k+4] |
| `Parsers.GapStatusLayout` | pydx/parsers.py:107-111 | decode_gap_status: the same error condition and length, and output k is the uint8 narrowing of the signed reading of blb[5k .. 5k+4] |
| `Parsers.GapStatusIsLowByteOfFillStatus` | pydx/parsers.py:107-111 | the two gap decoders fail on the same blobs; otherwise gap status k is fill status k mod 256 |
| `Parsers.GapCodesOfGroups` | pydx/parsers.py:93-96 | a blob of accepted length whose 5-byte records start with the given codes decodes to exactly those codes |
| `Parsers.GapCodesOfEncode` | pydx/parsers.py:93-96 | codes written as 4 bytes plus a padding byte each, the last possibly unpadded, decode back to the codes whatever the padding bytes hold |
| `Parsers.GapCodesReencode` | pydx/parsers.py:92-96 | only the padding is lost: writing the decoded codes back, with each dropped fifth byte as padding, reproduces the blob |
| `Parsers.CodeTablesFitOutputWidths` | pydx/parsers.py:10-30 | every fill-method code is below 2^16 and unchanged by the uint16 conversion; every gap status code is below 2^8 and unchanged by the uint8 conversion |
| `Parsers.FillStatusKeepsDefinedCodes` | pydx/parsers.py:91-96 | a blob whose records hold defined fill codes decodes to exactly those codes |
| `Parsers.NarrowingOfThreeHundred` | pydx/parsers.py:111 | one record holding 300 gives fill status 300 and gap status 44 |
| `Parsers.RetentionTimesOutcome` | pydx/parsers.py:113-116 | decode_retention_times succeeds exactly when len % 8 == 4 and the 4-byte prefix equals (len - 4)/8; it fails the assertion exactly when len % 8 != 4, and otherwise fails in `struct.unpack` |
| `Parsers.RetentionTimesLayout` | pydx/parsers.py:115-116 | on success there are (len - 4)/8 values, and value k is the little-endian reading of blb[4+8k .. 12+8k] |
| `Parsers.RetentionTimesRoundTrip` | pydx/parsers.py:113-116 | a count prefix followed by the values' 8-byte groups decodes back to the values, for any fewer than 2^32 values |
| `Parsers.RetentionTimesReencode` | pydx/parsers.py:113-116 | writing a decoded array back, as its count followed by its values' 8-byte groups, reproduces the blob |
| `Parsers.RetentionTimesCountExamples` | pydx/parsers.py:114-116 | a prefix of 3 followed by 24 bytes gives 3 values; followed by 16 bytes it fails in `struct.unpack` |
| `Db.LazyBlob.constructor` | pydx/db.py:17-20 | a new blob holds the raw value unchanged, is not decoded, and keeps the given decoder |
| `Db.LazyBlob.Data` | pydx/db.py:22-27 | a read returns the decoder applied to the original raw value. The first successful read caches the result and sets the flag. Later reads change nothing and do not call the decoder. A failing decoder leaves both fields as they were, so a later read retries on the raw value. Each read of a blob not yet decoded calls the decoder once |
| `Db.ReadTwice` | pydx/db.py:24-27 | two reads return the same result. When the first succeeds, the decoder is called at most once across both, and not at all if the blob was already decoded |
| `Db.FeatureWhereClause` | pydx/db.py:86-92 | one id gives an equality on that id, several give an IN list of all ids in order, none gives `ValueError`; a successful clause selects exactly the listed ids |
| `Db.ChemSpiderHitsWhere` | pydx/db.py:87-92 | the clause of the ChemSpider query fails exactly on no ids, filters `J.ConsolidatedUnknownCompoundItemsID` and selects exactly the listed ids |
| `Db.MzCloudSearchResultsWhere` | pydx/db.py:125-130 | the clause of the mzCloud query, with the same properties on `J.ConsolidatedUnknownCompoundItemsID` |
| `Db.CompoundSpectraWhere` | pydx/db.py:157-162 | the clause of the compound spectra query, with the same properties on `BHI.ConsolidatedUnknownCompoundItemsID` |

## Left out

- `decode_mol_structure`, `decode_peak_model` and `decode_spectrum`
  (pydx/parsers.py:32-33, 62-80, 98-105) are not modelled. They are thin
  compositions of gzip, zip, XML parsing, base64 and `float()` text parsing,
  all calls into libraries outside this model.
- IEEE-754: the 8-byte fields are modelled as 64-bit patterns. Converting a
  pattern to a float is the identity on its bits and is not modelled.
- `Bytes.ToUint16` and `Bytes.ToUint8` model NumPy before 2.0, where an
  out-of-range Python int wraps around. NumPy 2 raises `OverflowError`
  instead.
- `assert` statements are modelled as always executed. Under `python -O`
  they are skipped, and the stride-9 and retention-time checks vanish.
- Resource exhaustion is not modelled. For a retention-time prefix near
  2^32, Python may raise `MemoryError` while it builds the format string
  `'d' * blen`. The model always returns `StructError` for a count mismatch.
- The blob is a byte sequence. Other bytes-like inputs Python would accept
  are not distinguished.
- `Db.LazyBlob.Data` models the decoder as a pure function whose raised
  exception is a `Failure` value. A decoder with side effects, or with a
  result that differs from call to call, is not modelled.
- The SQL text is abstracted to a `WhereClause` value. The f-string
  rendering of the clause, including the `tuple(...)` repr, is not modelled.
  The queries, their execution and the pandas results are not modelled.
- The rest of the `PyDX` class (pydx/db.py:29-180) is database I/O and is
  not modelled: the engine, the table-reading properties with their
  `hasattr` caching, and `show_table_schema`. Only the WHERE clause of
  `get_compound_spectra` is modelled. Its last line (pydx/db.py:172) uses
  the undefined name `idxa`, so every call with a non-empty id list raises
  `NameError`.
- `sample_type_codes` (pydx/db.py:8-14) is a label table that no modelled
  operation uses.
- `pydx/analysis.py` is floating-point statistics and is not part of this
  model. `tests/test_db.py` needs an external database file. `setup.py` is
  packaging.
