/**
 * The fixed-layout blob decoders of `pydx/parsers.py`: the stride-9
 * value/flag record arrays (peak ratings and peak areas), the stride-5 gap
 * status arrays (every fifth byte dropped), the length-prefixed retention
 * time array, and the two code tables.
 *
 * Each decoder is a total function from the blob to a Result: an exception
 * the Python code raises is a Failure carrying the exception's kind and
 * message. An 8-byte double is kept as its 64-bit little-endian pattern.
 */
module Parsers {
  import opened Wrappers
  import opened Bytes

  /** The exceptions the decoders raise. */
  datatype DecodeError =
    | AssertionError(message: string)
      /** `struct.unpack` given a buffer whose size is not the `required` byte count */
    | StructError(required: nat)
    | ValueError(message: string)

  const NotMultipleOfNine := "Byte length must be a multiple of 9"
  const NotMultipleOfFour := "Remaining byte count is not a multiple of 4"
  const NotRetentionLayout := "Struct must be 4 byte integer followed by 8 byte doubles"

  /** Labels of the gap fill method codes. */
  const GapFillStatusCodes: map<int, string> := map[
    0 := "Unknown status",
    1 := "Original ion used",
    2 := "Unable to fill",
    4 := "Filled by arbitrary value",
    8 := "Filled by trace area",
    16 := "Filled by simulated peak",
    32 := "Filled by spectrum noise",
    64 := "Filled by matching ion",
    128 := "Filled by re-detected peak",
    256 := "Imputed by low area value",
    512 := "Imputed by group median",
    1024 := "Imputed by Random Forest",
    2048 := "Skipped"
  ]

  /** Labels of the gap status codes. */
  const GapStatusCodes: map<int, string> := map[
    1 := "No gap",
    2 := "Missing ions",
    3 := "Full gap"
  ]

  // ---------------------------------------------------------------------
  // Selecting bytes by their index, as `bytes(b for i, b in enumerate(blb) if ...)`

  /** The index filters the decoders apply to `enumerate(blb)`, and the complement of the gap filter. */
  datatype Selection =
    | RecordValue9   // the 8 value bytes of each 9-byte record
    | RecordFlag9    // the flag byte closing each 9-byte record
    | GapKept5       // every byte except each fifth one
    | GapPad5        // each fifth byte, the padding the gap decoders drop

  predicate Selects(sel: Selection, i: nat)
  {
    match sel
    case RecordValue9 => i % 9 != 8
    case RecordFlag9 => i % 9 == 8
    case GapKept5 => (i + 1) % 5 != 0
    case GapPad5 => (i + 1) % 5 == 0
  }

  /** The bytes among blb[..m] whose index sel selects, in their order. */
  function KeptPrefix(blb: seq<byte>, sel: Selection, m: nat): seq<byte>
    requires m <= |blb|
  {
    if m == 0 then []
    else KeptPrefix(blb, sel, m - 1) + (if Selects(sel, m - 1) then [blb[m - 1]] else [])
  }

  /** The bytes of blb whose index sel selects: its length, and where in the blob each kept byte comes from. */
  function Kept(blb: seq<byte>, sel: Selection): (r: seq<byte>)
    ensures |r| == KeptCount(sel, |blb|)
    ensures forall j :: 0 <= j < |r| ==> SourceIndex(sel, j) < |blb| && r[j] == blb[SourceIndex(sel, j)]
  {
    KeptPrefixLayout(blb, sel, |blb|);
    KeptPrefix(blb, sel, |blb|)
  }

  /** How many of the indices 0 .. m-1 sel selects. */
  function KeptCount(sel: Selection, m: nat): nat
  {
    match sel
    case RecordValue9 => m - m / 9
    case RecordFlag9 => m / 9
    case GapKept5 => m - m / 5
    case GapPad5 => m / 5
  }

  /** The index in the blob of the j-th selected byte. */
  function SourceIndex(sel: Selection, j: nat): nat
  {
    match sel
    case RecordValue9 => j + j / 8
    case RecordFlag9 => 9 * j + 8
    case GapKept5 => j + j / 4
    case GapPad5 => 5 * j + 4
  }

  /** One more index: the count grows by one exactly when the index is selected, and that index is the next source index. */
  lemma {:induction false} CountStep(sel: Selection, m: nat)
    ensures KeptCount(sel, m + 1) == KeptCount(sel, m) + (if Selects(sel, m) then 1 else 0)
    ensures Selects(sel, m) ==> SourceIndex(sel, KeptCount(sel, m)) == m
  {
    match sel
    case RecordValue9 =>
      var q, r := m / 9, m % 9;
      assert m == 9 * q + r;
      if r != 8 {
        assert KeptCount(sel, m) == 8 * q + r;
        assert (8 * q + r) / 8 == q;
      }
    case RecordFlag9 =>
    case GapKept5 =>
      var q, r := m / 5, m % 5;
      assert m == 5 * q + r;
      if r != 4 {
        assert KeptCount(sel, m) == 4 * q + r;
        assert (4 * q + r) / 4 == q;
      }
    case GapPad5 =>
  }

  /** The layout of a selection: its length, and where in the blob each selected byte comes from. */
  lemma {:induction false} KeptPrefixLayout(blb: seq<byte>, sel: Selection, m: nat)
    requires m <= |blb|
    ensures |KeptPrefix(blb, sel, m)| == KeptCount(sel, m)
    ensures forall j :: 0 <= j < KeptCount(sel, m) ==>
                SourceIndex(sel, j) < m && KeptPrefix(blb, sel, m)[j] == blb[SourceIndex(sel, j)]
  {
    if m > 0 {
      KeptPrefixLayout(blb, sel, m - 1);
      CountStep(sel, m - 1);
    }
  }

  // ---------------------------------------------------------------------
  // struct.unpack('<' + 'd' * count, b)

  /** The `count` little-endian doubles of b, failing unless b holds exactly that many bytes. */
  function UnpackDoubles(b: seq<byte>, count: nat): (r: Result<seq<bits64>, DecodeError>)
    ensures r.Success? <==> |b| == 8 * count
    ensures r.Failure? ==> r.error == StructError(8 * count)
    ensures r.Success? ==>
              |r.value| == count &&
              (forall k :: 0 <= k < count ==> LeBytes(r.value[k], 8) == b[8 * k .. 8 * k + 8])
  {
    if |b| != 8 * count then Failure(StructError(8 * count))
    else Success(seq(count, k requires 0 <= k < count => LeBits64(b[8 * k .. 8 * k + 8])))
  }

  // ---------------------------------------------------------------------
  // Stride-9 value/flag records: decode_peak_ratings and decode_peak_areas

  /** Index-aligned decoded values (as 64-bit patterns) and flag bytes. */
  datatype Records = Records(values: seq<bits64>, flags: seq<byte>)

  /** The body shared, line for line, by decode_peak_ratings and decode_peak_areas. */
  function DecodeValueFlagRecords(blb: seq<byte>): (r: Result<Records, DecodeError>)
    ensures r.Failure? <==> |blb| % 9 != 0
    ensures r.Failure? ==> r.error == AssertionError(NotMultipleOfNine)
    ensures r.Success? ==> |r.value.values| == |blb| / 9 && |r.value.flags| == |blb| / 9
  {
    if |blb| % 9 != 0 then Failure(AssertionError(NotMultipleOfNine))
    else
      var valueBytes := Kept(blb, RecordValue9);
      var flagBytes := Kept(blb, RecordFlag9);
      match UnpackDoubles(valueBytes, |valueBytes| / 8)
      case Failure(e) => Failure(e)
      case Success(values) => Success(Records(values, flagBytes))
  }

  /** decode_peak_ratings: fails exactly on lengths that are not multiples of 9, else gives len/9 aligned ratings and flags. */
  function DecodePeakRatings(blb: seq<byte>): (r: Result<Records, DecodeError>)
    ensures r.Failure? <==> |blb| % 9 != 0
    ensures r.Success? ==> |r.value.values| == |blb| / 9 && |r.value.flags| == |blb| / 9
  {
    DecodeValueFlagRecords(blb)
  }

  /** decode_peak_areas: fails exactly on lengths that are not multiples of 9, else gives len/9 aligned areas and flags. */
  function DecodePeakAreas(blb: seq<byte>): (r: Result<Records, DecodeError>)
    ensures r.Failure? <==> |blb| % 9 != 0
    ensures r.Success? ==> |r.value.values| == |blb| / 9 && |r.value.flags| == |blb| / 9
  {
    DecodeValueFlagRecords(blb)
  }

  /** The blob a value/flag record array is read from: each value's 8 little-endian bytes, then its flag. */
  function EncodeValueFlagRecords(values: seq<bits64>, flags: seq<byte>): (r: seq<byte>)
    requires |values| == |flags|
    ensures |r| == 9 * |values|
  {
    if values == [] then []
    else LeBytes(values[0], 8) + [flags[0]] + EncodeValueFlagRecords(values[1..], flags[1..])
  }

  lemma {:induction false} EncodeValueFlagRecordsAt(values: seq<bits64>, flags: seq<byte>, k: nat, d: nat)
    requires |values| == |flags| && k < |values| && d < 9
    ensures EncodeValueFlagRecords(values, flags)[9 * k + d] ==
              if d < 8 then LeBytes(values[k], 8)[d] else flags[k]
  {
    if k > 0 {
      EncodeValueFlagRecordsAt(values[1..], flags[1..], k - 1, d);
    }
  }

  /** The 8 value bytes of record k are blb[9k .. 9k+8]. */
  lemma {:induction false} RecordValueGroup(blb: seq<byte>, k: nat)
    requires |blb| % 9 == 0 && k < |blb| / 9
    ensures |Kept(blb, RecordValue9)| == 8 * (|blb| / 9)
    ensures Kept(blb, RecordValue9)[8 * k .. 8 * k + 8] == blb[9 * k .. 9 * k + 8]
  {
    var kept := Kept(blb, RecordValue9);
    forall j | 8 * k <= j < 8 * k + 8
      ensures kept[j] == blb[j + k]
    {
      assert j / 8 == k;
    }
  }

  /** Stride-9 decoding fails, with the assertion, exactly when the length is not a multiple of 9. */
  lemma {:induction false} ValueFlagRecordsFailure(blb: seq<byte>)
    ensures DecodeValueFlagRecords(blb).Failure? <==> |blb| % 9 != 0
    ensures DecodeValueFlagRecords(blb).Failure? ==>
              DecodeValueFlagRecords(blb).error == AssertionError(NotMultipleOfNine)
  {
  }

  /** A decoded stride-9 blob: n = |blb|/9 index-aligned records, value k read from blb[9k .. 9k+8], flag k = blb[9k+8]. */
  lemma {:induction false} ValueFlagRecordsLayout(blb: seq<byte>)
    requires |blb| % 9 == 0
    ensures DecodeValueFlagRecords(blb).Success?
    ensures var r := DecodeValueFlagRecords(blb).value;
            |r.values| == |blb| / 9 && |r.flags| == |blb| / 9 &&
            forall k :: 0 <= k < |blb| / 9 ==>
              r.values[k] == LeUnsigned(blb[9 * k .. 9 * k + 8]) && r.flags[k] == blb[9 * k + 8]
  {
    var r := DecodeValueFlagRecords(blb).value;
    forall k | 0 <= k < |blb| / 9
      ensures r.values[k] == LeUnsigned(blb[9 * k .. 9 * k + 8]) && r.flags[k] == blb[9 * k + 8]
    {
      RecordValueGroup(blb, k);
      LeUnsignedOfLeBytes(r.values[k], 8) by { Pow256Widths(); }
    }
  }

  /** Two blobs of n records that agree record by record are equal. */
  lemma {:induction false} SameRecords(a: seq<byte>, b: seq<byte>, n: nat)
    requires |a| == 9 * n && |b| == 9 * n
    requires forall k :: 0 <= k < n ==> a[9 * k .. 9 * k + 8] == b[9 * k .. 9 * k + 8] && a[9 * k + 8] == b[9 * k + 8]
    ensures a == b
  {
    forall i | 0 <= i < |a|
      ensures a[i] == b[i]
    {
      var k := i / 9;
      assert 9 * k <= i < 9 * k + 9;
      if i < 9 * k + 8 {
        assert a[i] == a[9 * k .. 9 * k + 8][i - 9 * k];
        assert b[i] == b[9 * k .. 9 * k + 8][i - 9 * k];
      }
    }
  }

  /** Writing the decoded records back, value bytes then flag, reproduces the blob. */
  lemma {:induction false} ValueFlagRecordsRoundTrip(blb: seq<byte>)
    requires |blb| % 9 == 0
    ensures DecodeValueFlagRecords(blb).Success?
    ensures var r := DecodeValueFlagRecords(blb).value;
            |r.values| == |r.flags| && EncodeValueFlagRecords(r.values, r.flags) == blb
  {
    ValueFlagRecordsLayout(blb);
    var r := DecodeValueFlagRecords(blb).value;
    var e := EncodeValueFlagRecords(r.values, r.flags);
    forall k | 0 <= k < |blb| / 9
      ensures e[9 * k .. 9 * k + 8] == blb[9 * k .. 9 * k + 8] && e[9 * k + 8] == blb[9 * k + 8]
    {
      EncodedRecord(r.values, r.flags, k);
      LeBytesOfLeUnsigned(blb[9 * k .. 9 * k + 8]);
    }
    SameRecords(e, blb, |blb| / 9);
  }

  /** Record k of the written blob is value k's 8 bytes followed by flag k. */
  lemma {:induction false} EncodedRecord(values: seq<bits64>, flags: seq<byte>, k: nat)
    requires |values| == |flags| && k < |values|
    ensures EncodeValueFlagRecords(values, flags)[9 * k .. 9 * k + 8] == LeBytes(values[k], 8)
    ensures EncodeValueFlagRecords(values, flags)[9 * k + 8] == flags[k]
  {
    var blb := EncodeValueFlagRecords(values, flags);
    forall d | 0 <= d < 8
      ensures blb[9 * k + d] == LeBytes(values[k], 8)[d]
    {
      EncodeValueFlagRecordsAt(values, flags, k, d);
    }
    EncodeValueFlagRecordsAt(values, flags, k, 8);
  }

  /** Decoding the blob written for any aligned records gives those records back. */
  lemma {:induction false} ValueFlagRecordsOfEncode(values: seq<bits64>, flags: seq<byte>)
    requires |values| == |flags|
    ensures DecodeValueFlagRecords(EncodeValueFlagRecords(values, flags)) == Success(Records(values, flags))
  {
    var blb := EncodeValueFlagRecords(values, flags);
    assert |blb| / 9 == |values|;
    ValueFlagRecordsLayout(blb);
    var r := DecodeValueFlagRecords(blb).value;
    forall k | 0 <= k < |values|
      ensures r.values[k] == values[k] && r.flags[k] == flags[k]
    {
      EncodedRecord(values, flags, k);
      LeUnsignedOfLeBytes(values[k], 8) by { Pow256Widths(); }
    }
    assert r.values == values && r.flags == flags;
  }

  /** decode_peak_ratings and decode_peak_areas are the same function of the blob. */
  lemma {:induction false} PeakAreasAreDecodedAsPeakRatings(blb: seq<byte>)
    ensures DecodePeakAreas(blb) == DecodePeakRatings(blb)
    ensures DecodePeakRatings(blb).Failure? <==> |blb| % 9 != 0
  {
    ValueFlagRecordsFailure(blb);
  }

  // ---------------------------------------------------------------------
  // Stride-5 gap arrays: decode_gap_fill_status and decode_gap_status

  /**
   * The integers both gap decoders compute before NumPy's dtype conversion:
   * drop each fifth byte, reject a remainder that is not a multiple of 4,
   * read each 4-byte group as a signed little-endian integer.
   */
  function GapCodes(blb: seq<byte>): (r: Result<seq<int32>, DecodeError>)
    ensures r.Failure? <==> !(|blb| % 5 == 0 || |blb| % 5 == 4)
    ensures r.Success? ==> |r.value| == (|blb| + 4) / 5
  {
    var kept := Kept(blb, GapKept5);
    var q, m := |blb| / 5, |blb| % 5;
    assert |blb| == 5 * q + m;
    assert |kept| == 4 * q + m;
    if |kept| % 4 != 0 then Failure(ValueError(NotMultipleOfFour))
    else Success(seq(|kept| / 4, k requires 0 <= k < |kept| / 4 => LeSigned32(kept[4 * k .. 4 * k + 4])))
  }

  /** `np.array(..., dtype=np.uint16)` of the gap codes. */
  function DecodeGapFillStatus(blb: seq<byte>): (r: Result<seq<uint16>, DecodeError>)
    ensures r.Failure? <==> !(|blb| % 5 == 0 || |blb| % 5 == 4)
    ensures r.Success? ==> |r.value| == (|blb| + 4) / 5
  {
    match GapCodes(blb)
    case Failure(e) => Failure(e)
    case Success(codes) => Success(seq(|codes|, k requires 0 <= k < |codes| => ToUint16(codes[k])))
  }

  /** `np.array(..., dtype=np.uint8)` of the gap codes. */
  function DecodeGapStatus(blb: seq<byte>): (r: Result<seq<uint8>, DecodeError>)
    ensures r.Failure? <==> !(|blb| % 5 == 0 || |blb| % 5 == 4)
    ensures r.Success? ==> |r.value| == (|blb| + 4) / 5
  {
    match GapCodes(blb)
    case Failure(e) => Failure(e)
    case Success(codes) => Success(seq(|codes|, k requires 0 <= k < |codes| => ToUint8(codes[k])))
  }

  /** The kept bytes: len(blb) - len(blb)/5 of them, byte j of the kept stream being blb[j + j/4]. */
  lemma {:induction false} GapKeptLayout(blb: seq<byte>)
    ensures |Kept(blb, GapKept5)| == |blb| - |blb| / 5
    ensures forall j :: 0 <= j < |Kept(blb, GapKept5)| ==>
              j + j / 4 < |blb| && Kept(blb, GapKept5)[j] == blb[j + j / 4]
  {
  }

  /** Group k of the kept stream is blb[5k .. 5k+4]. */
  lemma {:induction false} GapGroup(blb: seq<byte>, k: nat)
    requires 4 * k + 4 <= |Kept(blb, GapKept5)|
    ensures 5 * k + 4 <= |blb|
    ensures Kept(blb, GapKept5)[4 * k .. 4 * k + 4] == blb[5 * k .. 5 * k + 4]
  {
    GapKeptLayout(blb);
    var kept := Kept(blb, GapKept5);
    assert (4 * k + 3) / 4 == k;
    forall j | 4 * k <= j < 4 * k + 4
      ensures kept[j] == blb[j + k]
    {
      assert j / 4 == k;
    }
  }

  /** Gap decoding fails, with ValueError, exactly when len(blb) % 5 is neither 0 nor 4. */
  lemma {:induction false} GapCodesFailure(blb: seq<byte>)
    ensures GapCodes(blb).Failure? <==> !(|blb| % 5 == 0 || |blb| % 5 == 4)
    ensures GapCodes(blb).Failure? ==> GapCodes(blb).error == ValueError(NotMultipleOfFour)
  {
    GapKeptLayout(blb);
    var q, r := |blb| / 5, |blb| % 5;
    assert |blb| == 5 * q + r;
    assert |Kept(blb, GapKept5)| == 4 * q + r;
  }

  /** On success there are ceil(len(blb)/5) codes, code k read, signed, from blb[5k .. 5k+4]. */
  lemma {:induction false} GapCodesLayout(blb: seq<byte>)
    requires |blb| % 5 == 0 || |blb| % 5 == 4
    ensures GapCodes(blb).Success?
    ensures var codes := GapCodes(blb).value;
            |codes| == (|blb| + 4) / 5 &&
            forall k :: 0 <= k < |codes| ==> 5 * k + 4 <= |blb| && codes[k] == LeSigned32(blb[5 * k .. 5 * k + 4])
  {
    GapCodesFailure(blb);
    GapKeptLayout(blb);
    var codes := GapCodes(blb).value;
    var q, r := |blb| / 5, |blb| % 5;
    assert |blb| == 5 * q + r;
    assert |Kept(blb, GapKept5)| == 4 * q + r;
    forall k | 0 <= k < |codes|
      ensures 5 * k + 4 <= |blb| && codes[k] == LeSigned32(blb[5 * k .. 5 * k + 4])
    {
      GapGroup(blb, k);
    }
  }

  /** decode_gap_fill_status: the error condition, the output length, and each output as the uint16 narrowing of its signed group. */
  lemma {:induction false} GapFillStatusLayout(blb: seq<byte>)
    ensures DecodeGapFillStatus(blb).Failure? <==> !(|blb| % 5 == 0 || |blb| % 5 == 4)
    ensures DecodeGapFillStatus(blb).Failure? ==> DecodeGapFillStatus(blb).error == ValueError(NotMultipleOfFour)
    ensures DecodeGapFillStatus(blb).Success? ==>
              var r := DecodeGapFillStatus(blb).value;
              |r| == (|blb| + 4) / 5 &&
              forall k :: 0 <= k < |r| ==> 5 * k + 4 <= |blb| && r[k] == ToUint16(LeSigned32(blb[5 * k .. 5 * k + 4]))
  {
    GapCodesFailure(blb);
    if |blb| % 5 == 0 || |blb| % 5 == 4 {
      GapCodesLayout(blb);
    }
  }

  /** decode_gap_status: the same error condition and length, each output the uint8 narrowing of its signed group. */
  lemma {:induction false} GapStatusLayout(blb: seq<byte>)
    ensures DecodeGapStatus(blb).Failure? <==> !(|blb| % 5 == 0 || |blb| % 5 == 4)
    ensures DecodeGapStatus(blb).Failure? ==> DecodeGapStatus(blb).error == ValueError(NotMultipleOfFour)
    ensures DecodeGapStatus(blb).Success? ==>
              var r := DecodeGapStatus(blb).value;
              |r| == (|blb| + 4) / 5 &&
              forall k :: 0 <= k < |r| ==> 5 * k + 4 <= |blb| && r[k] == ToUint8(LeSigned32(blb[5 * k .. 5 * k + 4]))
  {
    GapCodesFailure(blb);
    if |blb| % 5 == 0 || |blb| % 5 == 4 {
      GapCodesLayout(blb);
    }
  }

  /** The uint8 gap status of a blob is the low byte of its uint16 fill status; both fail on the same blobs. */
  lemma {:induction false} GapStatusIsLowByteOfFillStatus(blb: seq<byte>)
    ensures DecodeGapStatus(blb).Success? <==> DecodeGapFillStatus(blb).Success?
    ensures DecodeGapStatus(blb).Success? ==>
              var s, f := DecodeGapStatus(blb).value, DecodeGapFillStatus(blb).value;
              |s| == |f| && forall k :: 0 <= k < |s| ==> s[k] == f[k] % 0x100
  {
    if GapCodes(blb).Success? {
      var codes := GapCodes(blb).value;
      forall k | 0 <= k < |codes|
        ensures DecodeGapStatus(blb).value[k] == DecodeGapFillStatus(blb).value[k] % 0x100
      {
        ToUint8OfToUint16(codes[k]);
      }
    }
  }

  /**
   * A gap blob: each code's four little-endian bytes followed by a padding
   * byte, the last code possibly without one.
   */
  function EncodeGapRecords(codes: seq<int32>, pads: seq<byte>): (r: seq<byte>)
    requires |pads| == |codes| || |pads| + 1 == |codes|
    ensures |r| == 4 * |codes| + |pads|
  {
    if codes == [] then []
    else if pads == [] then LeBytes32(codes[0])
    else LeBytes32(codes[0]) + [pads[0]] + EncodeGapRecords(codes[1..], pads[1..])
  }

  lemma {:induction false} EncodeGapRecordsAt(codes: seq<int32>, pads: seq<byte>, k: nat, d: nat)
    requires |pads| == |codes| || |pads| + 1 == |codes|
    requires k < |codes| && d < 4
    ensures EncodeGapRecords(codes, pads)[5 * k + d] == LeBytes32(codes[k])[d]
  {
    if k > 0 {
      EncodeGapRecordsAt(codes[1..], pads[1..], k - 1, d);
    }
  }

  /** A gap blob of n codes and n or n - 1 padding bytes has an accepted length and ceil(length/5) == n. */
  lemma {:induction false} GapBlobLength(n: nat, p: nat)
    requires p == n || p + 1 == n
    ensures var len := 4 * n + p; (len % 5 == 0 || len % 5 == 4) && (len + 4) / 5 == n
  {
    if p == n {
      assert 4 * n + p == 5 * n;
    } else {
      assert 4 * n + p == 5 * p + 4;
    }
  }

  /** Group k of the written gap blob is code k's four bytes. */
  lemma {:induction false} EncodedGapGroup(codes: seq<int32>, pads: seq<byte>, k: nat)
    requires |pads| == |codes| || |pads| + 1 == |codes|
    requires k < |codes|
    ensures EncodeGapRecords(codes, pads)[5 * k .. 5 * k + 4] == LeBytes32(codes[k])
  {
    var blb := EncodeGapRecords(codes, pads);
    forall d | 0 <= d < 4
      ensures blb[5 * k + d] == LeBytes32(codes[k])[d]
    {
      EncodeGapRecordsAt(codes, pads, k, d);
    }
  }

  /** A blob of accepted length whose four-byte groups hold the given codes decodes to them. */
  lemma {:induction false} GapCodesOfGroups(blb: seq<byte>, codes: seq<int32>)
    requires |blb| % 5 == 0 || |blb| % 5 == 4
    requires (|blb| + 4) / 5 == |codes|
    requires forall k :: 0 <= k < |codes| ==> 5 * k + 4 <= |blb| && LeSigned32(blb[5 * k .. 5 * k + 4]) == codes[k]
    ensures GapCodes(blb) == Success(codes)
  {
    GapCodesLayout(blb);
    SameSeq(GapCodes(blb).value, codes);
  }

  /** Each group of the written gap blob reads back as its code. */
  lemma {:induction false} EncodedGapCodes(codes: seq<int32>, pads: seq<byte>)
    requires |pads| == |codes| || |pads| + 1 == |codes|
    ensures forall k :: 0 <= k < |codes| ==>
              5 * k + 4 <= |EncodeGapRecords(codes, pads)| &&
              LeSigned32(EncodeGapRecords(codes, pads)[5 * k .. 5 * k + 4]) == codes[k]
  {
    forall k | 0 <= k < |codes|
      ensures 5 * k + 4 <= |EncodeGapRecords(codes, pads)| &&
              LeSigned32(EncodeGapRecords(codes, pads)[5 * k .. 5 * k + 4]) == codes[k]
    {
      EncodedGapGroup(codes, pads, k);
      LeSigned32OfLeBytes32(codes[k]);
    }
  }

  /** Decoding a gap blob gives back its codes, whatever the padding bytes hold and whether or not the last code is padded. */
  lemma {:induction false} GapCodesOfEncode(codes: seq<int32>, pads: seq<byte>)
    requires |pads| == |codes| || |pads| + 1 == |codes|
    ensures GapCodes(EncodeGapRecords(codes, pads)) == Success(codes)
  {
    GapBlobLength(|codes|, |pads|);
    EncodedGapCodes(codes, pads);
    GapCodesOfGroups(EncodeGapRecords(codes, pads), codes);
  }

  lemma {:induction false} SameSeq(r: seq<int32>, s: seq<int32>)
    requires |r| == |s| && forall k :: 0 <= k < |r| ==> r[k] == s[k]
    ensures r == s
  {
  }

  lemma {:induction false} EncodeGapRecordsPadAt(codes: seq<int32>, pads: seq<byte>, k: nat)
    requires |pads| == |codes| || |pads| + 1 == |codes|
    requires k < |pads|
    ensures EncodeGapRecords(codes, pads)[5 * k + 4] == pads[k]
  {
    if k > 0 {
      EncodeGapRecordsPadAt(codes[1..], pads[1..], k - 1);
    }
  }

  /** Two gap blobs of n groups and p padding bytes that agree group by group and pad by pad are equal. */
  lemma {:induction false} SameGapRecords(a: seq<byte>, b: seq<byte>, n: nat, p: nat)
    requires p == n || p + 1 == n
    requires |a| == 4 * n + p && |b| == 4 * n + p
    requires forall k :: 0 <= k < n ==> 5 * k + 4 <= |a| && a[5 * k .. 5 * k + 4] == b[5 * k .. 5 * k + 4]
    requires forall k :: 0 <= k < p ==> 5 * k + 4 < |a| && a[5 * k + 4] == b[5 * k + 4]
    ensures a == b
  {
    forall i | 0 <= i < |a|
      ensures a[i] == b[i]
    {
      var k := i / 5;
      assert 5 * k <= i < 5 * k + 5;
      if i < 5 * k + 4 {
        assert k < n;
        assert a[i] == a[5 * k .. 5 * k + 4][i - 5 * k];
        assert b[i] == b[5 * k .. 5 * k + 4][i - 5 * k];
      } else {
        assert k < p;
      }
    }
  }

  /**
   * Nothing but the padding is lost: writing the decoded codes back with the
   * dropped bytes (each fifth one) as padding reproduces the blob.
   */
  lemma {:induction false} GapCodesReencode(blb: seq<byte>)
    requires |blb| % 5 == 0 || |blb| % 5 == 4
    ensures GapCodes(blb).Success?
    ensures var codes, pads := GapCodes(blb).value, Kept(blb, GapPad5);
            (|pads| == |codes| || |pads| + 1 == |codes|) && EncodeGapRecords(codes, pads) == blb
  {
    GapCodesLayout(blb);
    var codes, pads := GapCodes(blb).value, Kept(blb, GapPad5);
    var q, r := |blb| / 5, |blb| % 5;
    assert |blb| == 5 * q + r;
    assert |pads| == q;
    GapBlobLength(|codes|, |pads|);
    var e := EncodeGapRecords(codes, pads);
    forall k | 0 <= k < |codes|
      ensures 5 * k + 4 <= |e| && e[5 * k .. 5 * k + 4] == blb[5 * k .. 5 * k + 4]
    {
      EncodedGapGroup(codes, pads, k);
      LeBytes32OfLeSigned32(blb[5 * k .. 5 * k + 4]);
    }
    forall k | 0 <= k < |pads|
      ensures 5 * k + 4 < |e| && e[5 * k + 4] == blb[5 * k + 4]
    {
      EncodeGapRecordsPadAt(codes, pads, k);
    }
    SameGapRecords(e, blb, |codes|, |pads|);
  }

  /** Every defined fill code is below 2^16 and so survives the uint16 conversion; every gap status code survives uint8. */
  lemma {:induction false} CodeTablesFitOutputWidths()
    ensures forall c :: c in GapFillStatusCodes ==> 0 <= c < 0x1_0000 && ToUint16(c) == c
    ensures forall c :: c in GapStatusCodes ==> 0 <= c < 0x100 && ToUint8(c) == c
  {
  }

  /** A defined fill code written in a gap blob comes out of decode_gap_fill_status unchanged. */
  lemma {:induction false} FillStatusKeepsDefinedCodes(codes: seq<int32>, pads: seq<byte>)
    requires |pads| == |codes| || |pads| + 1 == |codes|
    requires forall k :: 0 <= k < |codes| ==> codes[k] in GapFillStatusCodes
    ensures DecodeGapFillStatus(EncodeGapRecords(codes, pads)).Success?
    ensures DecodeGapFillStatus(EncodeGapRecords(codes, pads)).value == codes
  {
    GapCodesOfEncode(codes, pads);
    CodeTablesFitOutputWidths();
  }

  /** The code 300 read from one record: uint16 keeps it, uint8 wraps it to 44. */
  lemma {:induction false} NarrowingOfThreeHundred()
    ensures DecodeGapFillStatus([44, 1, 0, 0, 0]) == Success([300])
    ensures DecodeGapStatus([44, 1, 0, 0, 0]) == Success([44])
  {
    GapCodesOfEncode([300], [0]);
    assert LeBytes32(300) == [44, 1, 0, 0];
    assert EncodeGapRecords([300], [0]) == [44, 1, 0, 0, 0];
    assert GapCodes([44, 1, 0, 0, 0]) == Success([300]);
    var f := DecodeGapFillStatus([44, 1, 0, 0, 0]).value;
    var g := DecodeGapStatus([44, 1, 0, 0, 0]).value;
    assert |f| == 1 && f[0] == ToUint16(300) == 300;
    assert |g| == 1 && g[0] == ToUint8(300) == 44;
    assert f == [300] && g == [44];
  }

  // ---------------------------------------------------------------------
  // Length-prefixed array: decode_retention_times

  /** A 4-byte little-endian count, then the doubles it counts. */
  function DecodeRetentionTimes(blb: seq<byte>): (r: Result<seq<bits64>, DecodeError>)
    ensures r.Success? <==> |blb| % 8 == 4 && LeUnsigned(blb[..4]) == (|blb| - 4) / 8
    ensures r.Success? ==> |r.value| == (|blb| - 4) / 8
  {
    if (|blb| - 4) % 8 != 0 then Failure(AssertionError(NotRetentionLayout))
    else UnpackDoubles(blb[4..], LeUnsigned(blb[..4]))
  }

  /** The 8-byte little-endian groups of the given values, in order. */
  function EncodeDoubles(values: seq<bits64>): (r: seq<byte>)
    ensures |r| == 8 * |values|
  {
    if values == [] then [] else LeBytes(values[0], 8) + EncodeDoubles(values[1..])
  }

  lemma {:induction false} EncodeDoublesAt(values: seq<bits64>, k: nat)
    requires k < |values|
    ensures EncodeDoubles(values)[8 * k .. 8 * k + 8] == LeBytes(values[k], 8)
  {
    if k > 0 {
      EncodeDoublesAt(values[1..], k - 1);
      assert EncodeDoubles(values)[8 * k .. 8 * k + 8] == EncodeDoubles(values[1..])[8 * (k - 1) .. 8 * (k - 1) + 8];
    }
  }

  /** A retention-time blob: the count of values as 4 little-endian bytes, then the values. */
  function EncodeRetentionTimes(values: seq<bits64>): (r: seq<byte>)
    requires |values| < 0x1_0000_0000
    ensures |r| == 4 + 8 * |values|
  {
    LeBytes(|values|, 4) + EncodeDoubles(values)
  }

  /**
   * The outcome of decode_retention_times: the assertion fails unless
   * len(blb) % 8 == 4 (so len(blb) >= 4); past it, struct.unpack fails unless
   * the prefix counts exactly the 8-byte groups that follow.
   */
  lemma {:induction false} RetentionTimesOutcome(blb: seq<byte>)
    ensures DecodeRetentionTimes(blb).Success? <==>
              |blb| % 8 == 4 && LeUnsigned(blb[..4]) == (|blb| - 4) / 8
    ensures DecodeRetentionTimes(blb) == Failure(AssertionError(NotRetentionLayout)) <==> |blb| % 8 != 4
    ensures |blb| % 8 == 4 && LeUnsigned(blb[..4]) != (|blb| - 4) / 8 ==>
              DecodeRetentionTimes(blb) == Failure(StructError(8 * LeUnsigned(blb[..4])))
  {
  }

  /** On success: (len(blb) - 4)/8 values, value k read from blb[4+8k .. 12+8k]. */
  lemma {:induction false} RetentionTimesLayout(blb: seq<byte>)
    requires DecodeRetentionTimes(blb).Success?
    ensures var r := DecodeRetentionTimes(blb).value;
            |r| == (|blb| - 4) / 8 &&
            forall k :: 0 <= k < |r| ==> r[k] == LeUnsigned(blb[4 + 8 * k .. 12 + 8 * k])
  {
    var r := DecodeRetentionTimes(blb).value;
    forall k | 0 <= k < |r|
      ensures r[k] == LeUnsigned(blb[4 + 8 * k .. 12 + 8 * k])
    {
      assert blb[4..][8 * k .. 8 * k + 8] == blb[4 + 8 * k .. 12 + 8 * k];
      LeUnsignedOfLeBytes(r[k], 8) by { Pow256Widths(); }
    }
  }

  /** Decoding the blob written for any values (fewer than 2^32) gives the values back. */
  lemma {:induction false} RetentionTimesRoundTrip(values: seq<bits64>)
    requires |values| < 0x1_0000_0000
    ensures DecodeRetentionTimes(EncodeRetentionTimes(values)) == Success(values)
  {
    var blb := EncodeRetentionTimes(values);
    assert blb[..4] == LeBytes(|values|, 4);
    assert blb[4..] == EncodeDoubles(values);
    LeUnsignedOfLeBytes(|values|, 4) by { Pow256Widths(); }
    assert DecodeRetentionTimes(blb) == UnpackDoubles(EncodeDoubles(values), |values|);
    var r := DecodeRetentionTimes(blb).value;
    forall k | 0 <= k < |values|
      ensures r[k] == values[k]
    {
      EncodeDoublesAt(values, k);
      LeBytesInjective(r[k], values[k], 8) by { Pow256Widths(); }
    }
    assert r == values;
  }

  /** Two sequences of n 8-byte groups that agree group by group are equal. */
  lemma {:induction false} SameGroups(a: seq<byte>, b: seq<byte>, n: nat)
    requires |a| == 8 * n && |b| == 8 * n
    requires forall k :: 0 <= k < n ==> a[8 * k .. 8 * k + 8] == b[8 * k .. 8 * k + 8]
    ensures a == b
  {
    forall i | 0 <= i < |a|
      ensures a[i] == b[i]
    {
      var k := i / 8;
      assert 8 * k <= i < 8 * k + 8;
      assert a[i] == a[8 * k .. 8 * k + 8][i - 8 * k];
      assert b[i] == b[8 * k .. 8 * k + 8][i - 8 * k];
    }
  }

  /** Writing back the decoded values with their count reproduces the blob. */
  lemma {:induction false} RetentionTimesReencode(blb: seq<byte>)
    requires DecodeRetentionTimes(blb).Success?
    ensures |DecodeRetentionTimes(blb).value| < 0x1_0000_0000
    ensures EncodeRetentionTimes(DecodeRetentionTimes(blb).value) == blb
  {
    var r := DecodeRetentionTimes(blb).value;
    var body := blb[4..];
    Pow256Widths();
    assert |r| == LeUnsigned(blb[..4]) < Pow256(4);
    LeBytesOfLeUnsigned(blb[..4]);
    forall k | 0 <= k < |r|
      ensures EncodeDoubles(r)[8 * k .. 8 * k + 8] == body[8 * k .. 8 * k + 8]
    {
      EncodeDoublesAt(r, k);
    }
    SameGroups(EncodeDoubles(r), body, |r|);
    assert blb == blb[..4] + body;
  }

  /** A prefix of 3 followed by 24 bytes gives three values; followed by only 16 bytes, struct.unpack fails. */
  lemma {:induction false} RetentionTimesCountExamples(body: seq<byte>)
    requires |body| == 24
    ensures DecodeRetentionTimes([3, 0, 0, 0] + body).Success?
    ensures |DecodeRetentionTimes([3, 0, 0, 0] + body).value| == 3
    ensures DecodeRetentionTimes([3, 0, 0, 0] + body[..16]) == Failure(StructError(24))
  {
    assert LeBytes(3, 4) == [3, 0, 0, 0];
    LeUnsignedOfLeBytes(3, 4);
    var blb := [3, 0, 0, 0] + body;
    assert blb[..4] == [3, 0, 0, 0] && blb[4..] == body;
    var short := [3, 0, 0, 0] + body[..16];
    assert short[..4] == [3, 0, 0, 0] && short[4..] == body[..16];
  }
}
