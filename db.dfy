/**
 * The in-memory parts of `pydx/db.py`: the decode-once `LazyBlob` wrapper
 * and the feature-id WHERE clause that three query builders share. The SQL
 * text is abstracted to a WhereClause value; executing it is not modelled.
 */
module Db {
  import opened Wrappers

  /** What `_data` holds: the raw value before the first successful decode, the decoded value after. */
  datatype Slot<R, D> = Raw(raw: R) | Decoded(value: D)

  /**
   * A blob decoded on first access. The decoder is a pure function from the
   * raw value to a result; a Failure stands for the exception it raises.
   */
  class LazyBlob<R, D, E> {
    /** Python's `_data` */
    var slot: Slot<R, D>
    /** Python's `_decoded` */
    var decoded: bool
    /** Python's `_decoder`, set once */
    const decoder: R -> Result<D, E>

    /** The raw value given to the constructor. */
    ghost const original: R
    /** How many times the decoder has been called. */
    ghost var decoderCalls: nat

    ghost predicate Valid()
      reads this
    {
      (decoded <==> slot.Decoded?) &&
      (!decoded ==> slot == Raw(original)) &&
      (decoded ==> decoder(original) == Success(slot.value) && decoderCalls == 1) &&
      (!decoded ==> decoderCalls == 0 || decoder(original).Failure?)
    }

    constructor (raw: R, decoder: R -> Result<D, E>)
      ensures Valid()
      ensures slot == Raw(raw) && !decoded && this.decoder == decoder
      ensures original == raw && decoderCalls == 0
    {
      slot := Raw(raw);
      this.decoder := decoder;
      decoded := false;
      original := raw;
      decoderCalls := 0;
    }

    /**
     * The `data` property: decode on the first read, return the cached value
     * afterwards. A failing decoder leaves the object as it was.
     */
    method Data() returns (r: Result<D, E>)
      requires Valid()
      modifies this
      ensures Valid()
      ensures r == decoder(original)
      ensures r.Success? ==> decoded && slot == Decoded(r.value)
      ensures r.Failure? ==> slot == old(slot) && decoded == old(decoded)
      ensures old(decoded) ==> slot == old(slot) && decoded && decoderCalls == old(decoderCalls)
      ensures !old(decoded) ==> decoderCalls == old(decoderCalls) + 1
    {
      if !decoded {
        var result := decoder(slot.raw);
        decoderCalls := decoderCalls + 1;
        match result
        case Failure(e) =>
          return Failure(e);
        case Success(v) =>
          slot := Decoded(v);
          decoded := true;
      }
      r := Success(slot.value);
    }
  }

  /** Two reads of a blob give the same result, and call the decoder at most once between them when the first succeeds. */
  method ReadTwice<R, D, E>(b: LazyBlob<R, D, E>) returns (first: Result<D, E>, second: Result<D, E>)
    requires b.Valid()
    modifies b
    ensures b.Valid()
    ensures first == second
    ensures first.Success? ==> b.decoderCalls <= old(b.decoderCalls) + 1
    ensures first.Success? && old(b.decoded) ==> b.decoderCalls == old(b.decoderCalls)
  {
    first := b.Data();
    second := b.Data();
  }

  // ---------------------------------------------------------------------
  // The WHERE clause on the feature ids

  /** `column = id` or `column IN (id, ...)`. */
  datatype WhereClause = IdEquals(column: string, id: int) | IdIn(column: string, ids: seq<int>)

  datatype QueryError = ValueError(message: string)

  const NoFeatureIds := "feature_ids must contain at least one ID"

  /** The identifier column each query filters on. */
  const ChemSpiderHitsColumn := "J.ConsolidatedUnknownCompoundItemsID"
  const MzCloudSearchResultsColumn := "J.ConsolidatedUnknownCompoundItemsID"
  const CompoundSpectraColumn := "BHI.ConsolidatedUnknownCompoundItemsID"

  /** Whether a row whose column holds id satisfies the clause. */
  predicate Satisfies(w: WhereClause, id: int)
  {
    match w
    case IdEquals(_, x) => id == x
    case IdIn(_, xs) => id in xs
  }

  /** One id gives an equality, several an IN list in their order, none a ValueError. */
  function FeatureWhereClause(column: string, featureIds: seq<int>): (r: Result<WhereClause, QueryError>)
    ensures r.Failure? <==> featureIds == []
    ensures r.Failure? ==> r.error == ValueError(NoFeatureIds)
    ensures r.Success? ==> r.value.column == column
    ensures r.Success? ==> forall id :: Satisfies(r.value, id) <==> id in featureIds
    ensures |featureIds| == 1 ==> r == Success(IdEquals(column, featureIds[0]))
    ensures |featureIds| > 1 ==> r == Success(IdIn(column, featureIds))
  {
    if |featureIds| == 1 then Success(IdEquals(column, featureIds[0]))
    else if |featureIds| > 1 then Success(IdIn(column, featureIds))
    else Failure(ValueError(NoFeatureIds))
  }

  /** The clause of get_chemspider_hits_for_feature. */
  function ChemSpiderHitsWhere(featureIds: seq<int>): (r: Result<WhereClause, QueryError>)
    ensures r.Failure? <==> featureIds == []
    ensures r.Success? ==> r.value.column == "J.ConsolidatedUnknownCompoundItemsID"
    ensures r.Success? ==> forall id :: Satisfies(r.value, id) <==> id in featureIds
  {
    FeatureWhereClause(ChemSpiderHitsColumn, featureIds)
  }

  /** The clause of get_mzcloud_search_results_for_feature. */
  function MzCloudSearchResultsWhere(featureIds: seq<int>): (r: Result<WhereClause, QueryError>)
    ensures r.Failure? <==> featureIds == []
    ensures r.Success? ==> r.value.column == "J.ConsolidatedUnknownCompoundItemsID"
    ensures r.Success? ==> forall id :: Satisfies(r.value, id) <==> id in featureIds
  {
    FeatureWhereClause(MzCloudSearchResultsColumn, featureIds)
  }

  /** The clause of get_compound_spectra. */
  function CompoundSpectraWhere(featureIds: seq<int>): (r: Result<WhereClause, QueryError>)
    ensures r.Failure? <==> featureIds == []
    ensures r.Success? ==> r.value.column == "BHI.ConsolidatedUnknownCompoundItemsID"
    ensures r.Success? ==> forall id :: Satisfies(r.value, id) <==> id in featureIds
  {
    FeatureWhereClause(CompoundSpectraColumn, featureIds)
  }
}
