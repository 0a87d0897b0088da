/**
 The step from the batch loop of `main` to the table: `pd.DataFrame(data_list)`
 on a batch whose entries are all records, then the currency step.
 */
module Batch {
  import opened Records
  import opened Extraction
  import opened Currency

  /** Every entry of the batch is a well-formed record, as when no upload
      has an unsupported type. */
  ghost predicate AllRecords(entries: seq<Outcome>) {
    forall i :: 0 <= i < |entries| ==> entries[i].Record? && entries[i].fields.Valid()
  }

  /** `pd.DataFrame(data_list)` for a batch of records: one row per entry, in
      batch order, each with the keys of its record in their order. */
  function TableOf(entries: seq<Outcome>): (rows: seq<Row>)
    requires AllRecords(entries)
    ensures |rows| == |entries| && ValidRows(rows)
    ensures forall i :: 0 <= i < |entries| ==> rows[i].order == entries[i].fields.order
    ensures forall i, k :: 0 <= i < |entries| && k in entries[i].fields.values ==>
      rows[i].Get(k) == Some(Str(entries[i].fields.values[k]))
  {
    seq(|entries|, i requires 0 <= i < |entries| && AllRecords(entries) => RowOf(entries[i].fields))
  }

  /** A batch in which every upload has a supported type is a table of
      records, and the currency step keeps one row per upload. */
  lemma BatchTable(n: Numerics, uploads: seq<Upload>, entries: seq<Outcome>)
    requires |entries| == |uploads|
    requires forall i :: 0 <= i < |uploads| ==> entries[i] == Entry(uploads[i])
    requires forall i :: 0 <= i < |uploads| ==> Dispatch(FileExtension(uploads[i].name)) != Unsupported
    ensures AllRecords(entries)
    ensures |StandardizeCurrency(n, TableOf(entries))| == |uploads|
  {
  }
}
